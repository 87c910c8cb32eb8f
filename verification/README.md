# kluctl state acquisition, modelled in Dafny

This project models the parts of kluctl that gather state before a deployment
is diffed or applied:

- **Remote object snapshot** (`RemoteObjects`, remote_objects.dfy).
  - One reconciliation pass does three things in order:
    - discovers every object carrying the deployment's common labels, across all listable kinds;
    - fetches the explicitly referenced objects that discovery did not return;
    - indexes the cluster's namespaces by name.
  - Errors are triaged the same way in both fetch stages:
    - not-found is ignored;
    - forbidden and unauthorized are counted and produce at most one advisory warning;
    - any other error is recorded against the kind or the object.
  - The model also covers the read accessors and the inclusion filter built from tag labels and the
    item directory annotation.
- **Git project handling** (`GitProject`, git_project.dfy).
  - Building the export directory of a repository at a revision, and proving it stays below the base
    directory.
  - Recording involved-repository provenance. Records are intended to be deduplicated; as written,
    every record is appended (see "Findings"). Each repository's list is kept stably sorted by ref
    pattern.
  - Refreshing the mirror of every configured git project.
- **JSONPath rendering** (`JsonPath`, json_path.dfy) of a key list.
- **Cluster configuration loading** (`ClusterConfigs`, cluster_config.dfy), with its validation steps.
- **Shared modules.**
  - `FilePaths` (file_paths.dfy) models Go's `Clean`, `Join` and `Base` for slash-separated paths.
    `FilePaths.InDir` stands for the "stays inside the directory" check (`utils.CheckInDir`) applied
    to the export path. That check's code is not part of this model (see "Left out").
  - `Common` (common.dfy) holds `Option`, `Result` and a byte type.

The Kubernetes API, the git mirror cache, the file system and the YAML decoder
are all inputs to the model:

- the cluster is a value holding its preferred API resources (one per group and kind, as the
  resource registry's preferred-version filter yields them), a list function, a get function and the
  outcomes of the fan-out helper's joins;
- a mirror refresh, SHA-256, URL normalization, the identifier pattern of the JSONPath renderer and
  the inclusion matcher are function parameters.

When a missing object is resolved, an error other than not-found or a
permission error is only recorded in the error log
(pkg/deployment/utils/remote_objects_utils.go:126). The stage returns the
fan-out helper's joined error, and so does the model.

## Model

| member | source | states |
|---|---|---|
| RemoteObjects.NewRemoteObjects | pkg/deployment/utils/remote_objects_utils.go:24-31 | a fresh snapshot holds no objects and no namespaces and reports into the given logs |
| RemoteObjects.RefOf | pkg/deployment/utils/remote_objects_utils.go:71 | an object is keyed by its kind, namespace and name only |
| RemoteObjects.ListableKinds | pkg/deployment/utils/remote_objects_utils.go:46-48 | a kind is queried exactly when some preferred API resource of that kind offers the "list" verb |
| RemoteObjects.Merge | pkg/deployment/utils/remote_objects_utils.go:70-72 | listed objects are added under their own references: the key set grows by exactly their references; every stored value is an old one or a listed one; references nobody listed keep their old object; every listed reference holds a listed object, even when it had one before; a reference listed more than once holds the last object listed with it |
| RemoteObjects.ListKinds | pkg/deployment/utils/remote_objects_utils.go:51-74 | over all kinds: the snapshot gains exactly the references of successful listings, every new or replaced value is an object some successful listing returned, every returned reference holds such an object, and untouched references keep their objects; not-found adds nothing; a permission error counts in both counters and adds no warning; any other error counts once and adds a warning naming its kind; every such failed kind is warned about, and the warnings added are exactly as many as the failed positions of the kind list; the permission counter grows iff some kind was denied |
| RemoteObjects.GetAllByLabels | pkg/deployment/utils/remote_objects_utils.go:33-88 | with no labels, nothing at all happens; otherwise every listable kind is listed with the selector, the result is the join error, errors and namespaces are untouched, every value stored is an old one or a listed one, every returned reference holds a listed object, references no listing returned keep their objects, every other-error kind is warned about and nothing else is, with one warning per failed kind, and one advisory is added exactly when the join succeeded and some kind was denied |
| RemoteObjects.DiscoveryWarnings | pkg/deployment/utils/remote_objects_utils.go:76-83 | the warnings the discovery stage appends are per-kind warnings for exactly the failed kinds, one per failed kind, plus at most one advisory, present exactly when it is asked for |
| RemoteObjects.MissingRefs | pkg/deployment/utils/remote_objects_utils.go:91-98 | the references to fetch are exactly those of the input absent from the snapshot, each once |
| RemoteObjects.GetAll | pkg/deployment/utils/remote_objects_utils.go:113-135 | over all missing references: the snapshot gains exactly the references of the fetched objects, every new or replaced value is a fetched object, every fetched reference holds a fetched object, and untouched references keep their objects; every other-error fetch is logged as an error against its reference and counted, and the errors added are exactly as many as the failed positions of the reference list; a permission error is counted only in the permission counter |
| RemoteObjects.GetMissingObjectsAsWritten | pkg/deployment/utils/remote_objects_utils.go:90-149 | only references absent from the snapshot are fetched, each once, and every one of them is; with none absent nothing happens; otherwise the result is the join error; namespaces are untouched; the snapshot gains exactly the references of the fetched objects, every new or replaced value is a fetched object, every fetched reference holds a fetched object, and the others keep theirs; errors are appended for exactly the other-error fetches of absent references, one per failed reference; the only warning that can be appended is one advisory, added only when the join succeeded, some fetch was denied AND some other error occurred |
| RemoteObjects.FailedRefsDistinct | pkg/deployment/utils/remote_objects_utils.go:91-128 | for a reference list without repetitions, such as the set of missing references, the failed positions are exactly as many as the distinct references whose fetch fails with an error other than not-found or a permission error, so one error is logged per failed reference |
| RemoteObjects.GetMissingObjects | pkg/deployment/utils/remote_objects_utils.go:90-149 | the same requests, error, objects and error log as the stage as written, namespaces untouched; the only warning that can be appended is one advisory, added exactly when the join succeeded and some fetch was denied (corrected rule, see Findings) |
| RemoteObjects.FinishResolution | pkg/deployment/utils/remote_objects_utils.go:100-148 | with some reference missing: one get per missing reference and nothing else, the join error, namespaces untouched, the fetched objects added, errors logged for exactly the other-error fetches, one per failed reference, and the advisory appended exactly when asked for |
| RemoteObjects.PermissionOnlyGoesUnreported | pkg/deployment/utils/remote_objects_utils.go:122-143 | one missing reference whose fetch is forbidden: no advisory as written, one advisory when corrected |
| RemoteObjects.IndexByName | pkg/deployment/utils/remote_objects_utils.go:177-179 | namespaces are stored under their names: the key set grows by exactly the listed names, every stored value is an old one or a listed one, unlisted names keep theirs, and a name listed twice holds the last namespace with it |
| RemoteObjects.UpdateRemoteObjects | pkg/deployment/utils/remote_objects_utils.go:151-184 | without a cluster nothing happens; requests go discovery, then gets, then the namespace listing, which comes only last; a discovery failure returns discovery's outcome, with its error and only selector listings, and stops the pass; namespaces change only through the namespace listing: a failing one returns its error (not-found included) with namespaces untouched, a successful one indexes the listed namespaces; success implies the namespace listing ran; the keying of objects and of namespaces is preserved |
| RemoteObjects.PassAfterDiscovery | pkg/deployment/utils/remote_objects_utils.go:151-164 | once discovery succeeded, the pass leaves the objects, warnings and errors that resolution as written leaves, and a resolution error is returned without the namespaces being listed |
| RemoteObjects.PassAfterResolution | pkg/deployment/utils/remote_objects_utils.go:151-183 | once discovery succeeded, the requests are discovery's, then resolution's, then the namespace listing exactly when resolution succeeded; after both succeeded the namespaces are always listed: a failing listing is the pass's error with namespaces untouched, a successful one indexes the listed namespaces and the pass succeeds |
| RemoteObjects.FinishPass | pkg/deployment/utils/remote_objects_utils.go:161-183 | after discovery's requests, a resolution error ends the pass with its objects and logs and no namespace listing; otherwise the namespace listing is issued last and decides the error and the namespaces |
| RemoteObjects.PassContents | pkg/deployment/utils/remote_objects_utils.go:151-164 | once discovery succeeded, the snapshot holds exactly the old references, the discovered ones and the fetched ones; in every case each object held was held before, listed by the selector, or fetched for one of the references |
| RemoteObjects.UpdateRemoteObjectsCorrected | pkg/deployment/utils/remote_objects_utils.go:151-184 | the pass with the corrected resolution advisory: the same requests, error, objects, error log and namespaces as the pass as written; only the warnings differ, and they are the corrected resolution stage's |
| RemoteObjects.PermissionGapsOnlyWarn | pkg/deployment/utils/remote_objects_utils.go:151-184 | when every listable kind is listed or denied (some denied), with no references and a good namespace listing: the pass succeeds, holds exactly the old references plus those the successful listings returned, logs no error and warns exactly once |
| RemoteObjects.GetRemoteObject | pkg/deployment/utils/remote_objects_utils.go:186-189 | an object is returned exactly when one is stored under the reference |
| RemoteObjects.GetRemoteNamespace | pkg/deployment/utils/remote_objects_utils.go:191-194 | a namespace is returned exactly when one is stored under the name, and it carries that name |
| RemoteObjects.ForgetRemoteObject | pkg/deployment/utils/remote_objects_utils.go:196-198 | exactly the entry for the reference is removed; all other entries, namespaces and logs stay |
| RemoteObjects.ForgetThenGet | pkg/deployment/utils/remote_objects_utils.go:186-198 | after forgetting a reference it is not found and every other lookup answers as before |
| RemoteObjects.InclusionEntries | pkg/deployment/utils/remote_objects_utils.go:213-229 | an object has a tag entry for each value of a label matching `^kluctl.io/tag-\d+$`, and an item-directory entry exactly when the kustomize-dir annotation is set |
| RemoteObjects.TagLabelShape | pkg/deployment/utils/remote_objects_utils.go:215 | a label of the form `kluctl` + one character + `io/tag-` + rest is a tag label exactly when that character is not a newline and the rest is a non-empty run of decimal digits |
| RemoteObjects.TagLabelExamples | pkg/deployment/utils/remote_objects_utils.go:215 | the tag pattern accepts any digits after the prefix and any character but a newline in place of the unescaped '.'; it rejects a missing or non-digit suffix and anything before the prefix |
| RemoteObjects.GetFilteredRemoteObjects | pkg/deployment/utils/remote_objects_utils.go:200-211 | exactly the snapshot objects whose inclusion entries are accepted |
| RemoteObjects.FilterBySingleTag | pkg/deployment/utils/remote_objects_utils.go:203-220 | an inclusion matching one tag selects exactly the objects carrying that tag |
| RemoteObjects.FilterAfterForget | pkg/deployment/utils/remote_objects_utils.go:196-211 | forgetting an object removes it, and nothing else, from every filtered view |
| GitProject.RefSegment | pkg/kluctl_project/git.go:111-115 | the revision becomes one non-empty element without separators: "HEAD" when unset, each '/' and '\\' replaced by '-' |
| GitProject.CloneBaseDir | pkg/kluctl_project/git.go:105-109 | the base directory is the archive directory when set, otherwise the temporary directory, with one more element "git" |
| GitProject.RepoDirName | pkg/kluctl_project/git.go:116-120 | the repository directory name reads back as the URL path's base name, a '-', and the first 16 hex digits of the hash of "host:path" |
| GitProject.RepoDirElement | pkg/kluctl_project/git.go:116-120 | the repository directory name is always a single path element other than "..", whatever the URL path |
| GitProject.BuildCloneDir | pkg/kluctl_project/git.go:104-126 | the export directory is always accepted, lies inside `<archiveDir or TmpDir>/git`, and cleans to `<base>/<repo>-<hash16>/<ref>`; for the revision "." it is the repository directory and for ".." the base directory itself |
| GitProject.CloneDirShape | pkg/kluctl_project/git.go:116-121 | the export directory is `<base>/<repo>-<hash16>/<ref>`; for the revision "." it is the repository directory, for ".." the base directory itself |
| GitProject.RefSegmentCollides | pkg/kluctl_project/git.go:114-115 | revisions "a/b" and "a-b" share one export directory |
| GitProject.CloneDirIgnoresScheme | pkg/kluctl_project/git.go:116-120 | the export directory depends on the URL only through host and path |
| GitProject.SortStable | pkg/kluctl_project/git.go:144-147 | the records are sorted by ref pattern, form a permutation of the input, and records with equal patterns keep their order |
| GitProject.AddInvolvedRepo | pkg/kluctl_project/git.go:128-148 | the record ends up under the normalized key; other keys are untouched; an equal record already present leaves everything unchanged; otherwise the list grows by exactly the record, stably sorted; lists without duplicates stay so (corrected duplicate check, see Findings) |
| GitProject.AddInvolvedRepoIdempotent | pkg/kluctl_project/git.go:135-143 | recording the same provenance twice equals recording it once |
| GitProject.AddInvolvedRepoAsWritten | pkg/kluctl_project/git.go:135-148 | as written, the record is always appended and the list re-sorted: the list grows by exactly the record, is sorted, records of each pattern keep their order with the new one last among its pattern; other keys are untouched |
| GitProject.AsWrittenRecordsDuplicates | pkg/kluctl_project/git.go:136-143 | as written, recording the same provenance twice leaves two equal records |
| GitProject.SlotUrl | pkg/kluctl_project/git.go:43-48 | an unset slot or a slot without a project refreshes nothing, otherwise its project URL |
| GitProject.ClusterUrls | pkg/kluctl_project/git.go:60-66 | the cluster projects refreshed are exactly those with a project |
| GitProject.TargetUrls | pkg/kluctl_project/git.go:68-78 | targets without a config or without a project are skipped; every other target's project is refreshed |
| GitProject.FirstError | pkg/kluctl_project/git.go:22-39 | no error is reported iff every refresh succeeded; a reported error wraps the failure of a refreshed URL |
| GitProject.UpdateGitCaches | pkg/kluctl_project/git.go:17-82 | exactly the configured project URLs are refreshed; the result is nil iff every refresh succeeded, and otherwise one of the wrapped refresh errors |
| GitProject.RefreshNotDeduplicated | pkg/kluctl_project/git.go:50-59 | a repository used by two slots is refreshed twice |
| JsonPath.IntToStringRoundTrip | pkg/utils/jsonpath.go:13-14 | the decimal text written for an integer key reads back as that integer |
| JsonPath.KeyListToJsonPath | pkg/utils/jsonpath.go:10-39 | the empty key list gives the empty path |
| JsonPath.Step | pkg/utils/jsonpath.go:12-37 | each key only extends the path so far |
| JsonPath.IntKeyAppends | pkg/utils/jsonpath.go:13-14 | an integer key appends `[i]`, with no root `$`, even as first key |
| JsonPath.AlphaKeyAppends | pkg/utils/jsonpath.go:16-20 | an identifier key is appended bare, preceded by '.' exactly when the path so far is non-empty |
| JsonPath.QuotedKeyAppends | pkg/utils/jsonpath.go:21-30 | another string key gets a root `$` if the path is empty, then `['s']` when it holds a double quote and `["s"]` otherwise |
| JsonPath.OtherKeyAppends | pkg/utils/jsonpath.go:31-36 | a key of any other type gets a root `$` if the path is empty, then `[%v]` |
| JsonPath.PrefixMonotone | pkg/utils/jsonpath.go:12-37 | the path of a prefix of the keys is a prefix of the path of all of them |
| JsonPath.IntKeysOnly | pkg/utils/jsonpath.go:12-14 | integer keys alone give a path starting with '[' that holds no `$` and no '.' |
| JsonPath.FirstKeyDecidesStart | pkg/utils/jsonpath.go:11-36 | the path starts with '[' when the first key is an integer and with `$` when it is bracketed |
| JsonPath.Example | pkg/utils/jsonpath.go:10-39 | `["spec", "containers", 0, "env var"]` gives `spec.containers[0]["env var"]` |
| ClusterConfigs.LoadClusterConfig | pkg/types/cluster_config.go:21-47 | an empty name fails first; a missing file is "not found"; a read error, and otherwise a decode error, is returned unchanged exactly when it occurs; a decoded configuration naming another cluster is rejected with both names; on success the decoded configuration is returned and names the requested cluster |
| ClusterConfigs.NameCheckedFirst | pkg/types/cluster_config.go:22-24 | without a name the result does not depend on the file system |
| ClusterConfigs.AcceptsOnlyMatchingName | pkg/types/cluster_config.go:42-46 | a decoded configuration is accepted exactly when it names the requested cluster |
| ClusterConfigs.ConfigPath | pkg/types/cluster_config.go:26 | a name without separators is read from `<name>.yml` directly inside the cluster directory |
| FilePaths.JoinBelow | pkg/kluctl_project/git.go:119-121 | joining a path without ".." elements onto a non-empty directory appends its elements and stays inside the directory |
| FilePaths.JoinName | pkg/kluctl_project/git.go:109 | joining a single name onto a directory appends exactly that element and stays inside it |
| FilePaths.CleanIdempotent | pkg/kluctl_project/git.go:119-120 | a cleaned path is never empty and cleaning it again changes nothing |
| FilePaths.JoinResolves | pkg/kluctl_project/git.go:109 | the join is empty only when both parts are; with an empty first part it is the second, cleaned; otherwise the second part's elements are resolved on top of the cleaned first, whose rootedness is kept |
| FilePaths.Base | pkg/kluctl_project/git.go:117 | "." for the empty path, "/" for separators only, and otherwise the last element once trailing separators are removed: a non-empty separator-free suffix preceded by '/' or the start |
| FilePaths.InDirItself | pkg/kluctl_project/git.go:121 | the containment test accepts the directory itself |
| FilePaths.ParentNotInDir | pkg/kluctl_project/git.go:119-121 | joining ".." to a directory ending in a name gives its parent, which the containment test rejects |

## Left out

- Concurrency. The fan-out helper runs the per-kind and per-reference calls in parallel, and
  `updateGitCaches` starts one goroutine per refresh. The model processes them left to right.
  - The statements are written to hold in any order: key sets, set-valued membership, and "some
    error" rather than "the first error".
  - The fan-out helper is not part of this model. Its joined error is an input (`discoveryJoin`,
    `resolutionJoin`).
- The unsynchronized counter updates in the resolution stage are modelled as plain increments. The
  permission and error counters there are incremented before the mutex is taken.
- Status reporting (`status.Start`, `UpdateAndInfoFallback`, `Success`, `Failed`) is not modelled. It
  only affects progress output.
- `AddApiWarnings` is not modelled. API server warnings are passed through from the client, which is
  not part of this model.
- The Kubernetes client, the git mirror cache, `CheckIncluded`, `NormalizedRepoKey`, `Sha256String`
  and the JSONPath identifier pattern are inputs. Their code is not part of this model.
- `cloneGitProject` (pkg/kluctl_project/git.go:84-102) is left out. It only performs directory
  creation, mirror access, cloning and repository inspection, all of which are I/O.
- The `MyJsonPath` type (pkg/utils/jsonpath.go:41-124) is left out. It wraps an external JSONPath
  library.
- The YAML decoding and file reads of `LoadClusterConfig` are inputs. Inline variables are kept as
  text values.
- The early returns after `doUpdateExternalProject` in `updateGitCaches` are not modelled. The
  closures always return nil, so those branches are dead.
- GitProject.AddInvolvedRepo: equality of records is Dafny value equality. This does not distinguish
  a nil map of refs from an empty one, while deep equality in Go would.
- RemoteObjects.ListableKinds: the registry's choice of one preferred version per group and kind
  (`GetFilteredPreferredGVKs`) is not modelled. The cluster's `resources` are taken to be that
  preferred set already, so the model lists exactly the listable kinds among them.
- RemoteObjects.InclusionEntries: the entries are a set. Their order and repeated tag values do not
  affect a membership-based inclusion test.
- RemoteObjects.GetFilteredRemoteObjects: the result is a set of objects rather than a slice in map
  iteration order, which is unspecified in Go.
- GitProject.UpdateGitCaches: the reported error is the first failure in launch order. In Go it is
  the first failure to be recorded at run time, so the contract only promises one of the failures.
- FilePaths.InDir: `utils.CheckInDir` is not part of this model. Its behaviour is taken to be
  `InDir`'s, a lexical check after cleaning that accepts the base directory itself. So the revision
  ".." yields the base directory and is accepted, and `BuildCloneDir`'s error branch is never taken.
- ClusterConfigs.LoadClusterConfig: the error texts (pkg/types/cluster_config.go:23, 28, 43) are not
  modelled. Each error is a `LoadError` constructor carrying the names the text would quote.
- RemoteObjects.ListKinds: when two kinds' listings return objects under the same reference, which
  one is kept is not stated. Go runs the listings concurrently, so the winner depends on timing. The
  same holds for `GetAll` and objects fetched under a shared reference.
- FilePaths is Go's `filepath` for Unix only. Windows volume names and '\\' separators are not
  modelled.

## Findings

| source | as written | input that shows it | evidently intended | confidence | as-written member | corrected member |
|---|---|---|---|---|---|---|
| pkg/deployment/utils/remote_objects_utils.go:122-143 | the permission advisory is nested under `errCount != 0`, but a permission error in this stage does not increment `errCount` | one missing reference whose fetch returns Forbidden: the permission counter is 1 and the error counter 0, so no advisory is logged | warn whenever some fetch was denied, as discovery does (its error counter also counts permission errors) | high, not executed | RemoteObjects.GetMissingObjectsAsWritten, used by RemoteObjects.UpdateRemoteObjects (shown by RemoteObjects.PermissionOnlyGoesUnreported) | RemoteObjects.GetMissingObjects, used by RemoteObjects.UpdateRemoteObjectsCorrected |
| pkg/kluctl_project/git.go:136-141 | the duplicate check calls `reflect.DeepEqual(ir, e)` with a stored `InvolvedRepo` value and a `*InvolvedRepo` pointer; values of different types are never deeply equal | the same `(refPattern, refs)` recorded twice for one repository: the list holds two equal records | skip a record equal to one already present | high, not executed | GitProject.AddInvolvedRepoAsWritten (shown by GitProject.AsWrittenRecordsDuplicates) | GitProject.AddInvolvedRepo |
