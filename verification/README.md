# git-file-filter, modelled in Dafny

git-file-filter snapshots a git repository at a commit and filters its files.
The snapshot is a list of file entries, each with a hash, a name, a blob URL, a language label and a content stream.
It also records a file count, the list of languages seen, the files of unknown language, and the `.rego` policy found in the tree.
The filter runs user rules over the snapshot:

- a regexp over file names;
- an optional policy URL.

For every entry a rule matches, the filter resolves a policy, normalises the file to JSON and evaluates the policy on it with OPA.
It keeps the entry when the evaluation returns a result.

An older variant works differently:

- its walk marks configuration files by name;
- its filter sorts them into four fixed categories (Docker, Terraform, Manifest, Gradle);
- it keeps those whose content matches the category's regexp.

This project models both engines and the two helpers they share. All of them are in Go:

- `util.In`, a containment-based membership test;
- `util.ToJSON`, a name-dispatched normaliser.

It then proves what they compute.

Modules, one per concern of the source:

- `Strings` holds `util.In`, `strings.Contains` and `strings.Index`.
- `Conv` holds `util.ToJSON`.
- `Foreign` holds the tree-file records and the foreign oracles: enry and the regexp package.
- `GitTypes` holds the records of `git.go`, its JSON projection and the shared blob stream (class `BlobReader`).
- `GitWalk` holds `retrieveFromRoot`/`retrieveFromDir`.
- `GitPolicy` holds `findPolicy*` and the end of `GetGitCollection`.
- `GitFilter` holds `GitCollection.Filter`; `GitFilterFacts` holds the lemmas about it.
- `LegacyWalk` holds the walkers of `default.go`.
- `LegacyFilter` holds `GitCollection.Filter(*RegexpConfig)` of `encoding.go`.

How the external world enters the model:

- The commit tree arrives as a sequence of files (path, hash, blob). A blob is either its bytes or the read error, and both `Reader()` and `Contents()` see the same outcome.
- enry, the regexp engine, the YAML/HCL converters, `json.Marshal`, HTTP, the default policy file and OPA are parameters. They are functions that may fail.
- The stream an entry carries is an object, a `BlobReader`, with the bytes not yet read. `Filter` copies entries but every copy holds the same reader, so `ioutil.ReadAll` drains it for all of them.

Behaviour of the code worth noting:

- **Policy search:** the last `.rego` match wins, not the first. The search callback never stops early and overwrites `name`, `content` and `err` at every match.
- **Unsupported files:** a `Dockerfile` never reaches the output of `git.go`'s `Filter`, because `util.ToJSON` calls it unsupported.
- **Shared stream:**
  - `Filter` over the same collection a second time fails whenever the first pass kept something, because the kept entry's stream was drained.
  - A file that two rules engage, even an unsupported one, aborts the pass.

## Model

| member | source | states |
|---|---|---|
| Strings.Scan | internal/util/strings.go:6-14 | the loop returns true exactly when some listed string equals `s` or occurs in `s` (`In`) |
| Strings.ContainsIff | internal/util/strings.go:8 | `strings.Contains` as modelled holds exactly when the substring occurs at some offset |
| Strings.ContainsSelfAndEmpty | internal/util/strings.go:8 | every string contains itself and "" |
| Strings.ContainsNotLonger | internal/util/strings.go:8 | only strings no longer than `s` occur in `s` |
| Strings.InIsContainment | internal/util/strings.go:8 | the equality test of `In` is subsumed by containment |
| Strings.InWithEmptyMember | internal/util/strings.go:8 | a list holding "" makes `In` true for every string |
| Strings.InOneWay | internal/util/strings.go:7-13 | members longer than `s` never make `In` true; vacuously, `In` over an empty list is false |
| Strings.DockerfileNotInDocker | internal/util/strings.go:8 | `In(["Dockerfile"], "Docker")` is false: containment runs one way |
| Strings.InMonotone | internal/util/strings.go:7-11 | listing more strings never turns true into false |
| Strings.InOrderIndependent | internal/util/strings.go:7-11 | `In` depends only on the set of listed strings, not their order or repetition |
| Strings.IndexOf | internal/crud/git.go:181 | `strings.Index` for one character: the first offset holding it, or -1 exactly when it is absent |
| Strings.AfterFirst | internal/crud/git.go:181 | the part after the first separator, or the whole string when there is none |
| Conv.ToJSON | internal/util/conv.go:17-52 | a read error and empty input are errors for every name; unsupported exactly for non-empty input with no marker; JSON passes through unchanged; a YAML name yields the YAML converter's output and a ".tf" name the marshalled HCL decoding when those succeed |
| Conv.FormatOfContains | internal/util/conv.go:29-36 | the dispatch is containment of ".json", then ".yaml"/".yml", then ".tf", in that order |
| Conv.MarkerAt | internal/util/conv.go:29-36 | a marker at any offset selects its format |
| Conv.TfJsonIsJson | internal/util/conv.go:29-36 | "main.tf.json" takes the JSON pass-through |
| Conv.JsonBakIsJson | internal/util/conv.go:29 | "x.json.bak" counts as JSON |
| Conv.DotlessIsUnsupported | internal/util/conv.go:47-48 | a name without a dot selects no conversion |
| Conv.XyzIsUnsupported | internal/util/conv.go:47-48 | "app.xyz" selects no conversion |
| Conv.NoDot | internal/util/conv.go:29-36 | a marker starting with a dot never occurs in a dotless name |
| Conv.SingleDot | internal/util/conv.go:29-36 | in a single-dot name a marker occurs only if its second character follows the dot |
| Conv.EmptyBeforeDispatch | internal/util/conv.go:21-25 | empty input is "no bytes read" for every name, never the unsupported skip |
| Conv.JsonPassThrough | internal/util/conv.go:29-30 | non-empty input of a ".json" name comes back byte for byte |
| Conv.ConverterFailurePropagates | internal/util/conv.go:32-45 | a failing YAML or HCL conversion or marshal is returned with no output |
| GitTypes.BlobReader.constructor | internal/crud/git.go:184 | a fresh stream holds the whole blob |
| GitTypes.BlobReader.ReadAll | internal/util/conv.go:21 | reading returns what was left, and nothing is left afterwards |
| GitTypes.ToDoc | internal/crud/git.go:55-67 | the encoded collection has one document per entry |
| GitTypes.ToDocExactlyVisible | internal/crud/git.go:38-67 | two collections encode alike exactly when they agree on the fields whose JSON tag is not "-" |
| GitWalk.Classify | internal/crud/git.go:194-201 | the label is never empty; it is the extension lookup when that succeeds, else the content lookup when that succeeds, and "Unknown" when both fail |
| GitWalk.Labels | internal/crud/git.go:248-255 | one label per visited file, in visiting order |
| GitWalk.UnknownOfIff | internal/crud/git.go:197-199 | a path is on the unknown list exactly when some visited file with that path was recognised by neither lookup |
| GitWalk.LanguagesCover | internal/crud/git.go:204-206 | every label seen is covered by the language list (`In` holds) |
| GitWalk.LanguagesSpread | internal/crud/git.go:258-260 | only labels seen are listed, and no listed label equals or contains an earlier one |
| GitWalk.LanguagesDistinct | internal/crud/git.go:258-260 | the language list has no duplicates |
| GitWalk.LanguagesFirstSeenOrder | internal/crud/git.go:258-260 | the list keeps first-seen order: each entry sits at its first occurrence, and positions increase |
| GitWalk.JavaScriptAfterJava | internal/crud/git.go:204-206 | "JavaScript" is suppressed once "Java" is listed but not the other way round |
| GitWalk.UnknownIsListed | internal/crud/git.go:253-260 | "Unknown" is always covered by the list, and is listed itself unless another seen label is contained in it |
| GitWalk.ListedWhenUncovered | internal/crud/git.go:253-260 | a seen label that contains no other seen label is listed itself |
| GitWalk.KeptSplit | internal/crud/git.go:176 | the dir walk's file selection distributes over concatenation |
| GitWalk.KeptIff | internal/crud/git.go:176 | a file is selected exactly when it is in the tree and its path contains `dir` |
| GitWalk.Visit | internal/crud/git.go:194-209 | one visit appends the entry with a fresh stream, counts it, extends the unknown list and the language list |
| GitWalk.VisitStep | internal/crud/git.go:230-266 | a visit keeps the walk in step with the files visited so far |
| GitWalk.SummaryStep | internal/crud/git.go:248-263 | one visit keeps the count, the unknown list and the language list in step with the labels of the files visited |
| GitWalk.EntriesStep | internal/crud/git.go:231-262 | one visit keeps every earlier entry and appends the new file's entry, each with its own stream |
| GitWalk.FirstFailure | internal/crud/git.go:238-246 | a failing file after readable ones is the failure the walk reports |
| GitWalk.RootCallback | internal/crud/git.go:230-266 | the ForEach callback returns the blob's error or one more visit |
| GitWalk.RootRound | internal/crud/git.go:230-266 | one callback of the root walk either stops at the first unreadable file or extends the walk by one file |
| GitWalk.RetrieveFromRoot | internal/crud/git.go:223-272 | fails exactly when some file cannot be read, reporting the first failure and no partial list; otherwise one entry per tree file in order, named by its path, with `url/blob/hash/path` links, a matching count and both lists |
| GitWalk.DirCallback | internal/crud/git.go:175-213 | files outside `dir` are passed over; others fail with their error or are visited |
| GitWalk.DirStep | internal/crud/git.go:175-213 | one callback keeps the walk in step with the selected files |
| GitWalk.DirRound | internal/crud/git.go:175-213 | one callback of the dir walk either stops at the first unreadable file under `dir` or keeps the walk in step with the selected files |
| GitWalk.RetrieveFromDir | internal/crud/git.go:168-219 | the same over the files whose path contains `dir`, named after their first "/", with `url/blob/hash/dir/name` links |
| GitWalk.KeptStep | internal/crud/git.go:176 | one more tree file extends the selection exactly when its path contains `dir` |
| GitWalk.KeptBlobs | internal/crud/git.go:185-192 | the first failing selected file is the failure the dir walk reports |
| GitWalk.KeptAllRead | internal/crud/git.go:185-192 | when every selected file was read, no file under `dir` failed |
| GitPolicy.Take | internal/crud/git.go:281-283 | a match records its path and content, and an error exactly when the blob cannot be read |
| GitPolicy.LastCandidateIsLast | internal/crud/git.go:277-310 | the search finds nothing exactly when no path qualifies, else the last qualifying file in tree order |
| GitPolicy.NothingFoundIff | internal/crud/git.go:277-292 | the all-empty result means no file qualified |
| GitPolicy.TakesLast | internal/crud/git.go:278-289 | a qualifying file with none after it is what the search returns |
| GitPolicy.RootCandidate | internal/crud/git.go:297-310 | the root search is the dir search with `dir` "" |
| GitPolicy.LastCandidateStep | internal/crud/git.go:278-289 | each qualifying file overwrites what earlier matches left |
| GitPolicy.FindPolicyFromDir | internal/crud/git.go:277-292 | the loop returns the last file whose path contains `dir` and ".rego" |
| GitPolicy.FindPolicyFromRoot | internal/crud/git.go:297-310 | the loop returns the last file whose path contains ".rego" |
| GitPolicy.PolicyOf | internal/crud/git.go:156-160 | a policy is set exactly when both name and content are non-empty |
| GitPolicy.BaseDirOf | internal/crud/git.go:141-154 | BaseDir is never empty; it is `dir` when `dir` is given and "/" when it is not |
| GitPolicy.KeptEverything | internal/crud/git.go:176 | with `dir` "" every file qualifies, so the dir selection is the whole tree |
| GitPolicy.ListFiles | internal/crud/git.go:127-145 | the walk for `dir` (or the root walk for "") fails exactly when some file under `dir` cannot be read, with the first failure; otherwise it is the walk over the selected files |
| GitPolicy.SearchPolicy | internal/crud/git.go:134-151 | the search for `dir` (or the root search for "") returns the last candidate |
| GitPolicy.GetGitCollection | internal/crud/git.go:127-160 | "retrieving list of files" exactly when the walk fails, with its first failure; "searching a .rego file" exactly when the walk succeeds and the search fails; otherwise the base fields, the walk's results and the last candidate's policy |
| GitPolicy.SearchNeverFailsAfterWalk | internal/crud/git.go:136-139 | once the walk succeeded the search cannot fail: that error branch is never taken |
| GitPolicy.PolicyIsLastCandidate | internal/crud/git.go:156-160 | the policy is the last qualifying file's, set exactly when its content is non-empty |
| GitPolicy.NoCandidateNoPolicy | internal/crud/git.go:156-160 | no qualifying file, no policy |
| GitFilter.GetPolicyFromURL | internal/crud/git.go:409-431 | the body on success; an empty body is an error too |
| GitFilter.PolicyPrecedence | internal/crud/git.go:341-361 | a rule URL wins and is recorded; then the repository policy by name; when neither exists the default file is used, recorded as "not found", and an unreadable default file is the error |
| GitFilter.ChoosePolicy | internal/crud/git.go:341-361 | the policy branch of the loop agrees with the precedence of `ResolvePolicy` |
| GitFilter.RuleStep | internal/crud/git.go:326-400 | the untouched fields stay; an uncompilable regexp is the invalid-regexp error of the rule; a non-matching name passes unchanged; a policy that cannot be resolved, a conversion error other than "unsupported" and an evaluation error are returned; an unsupported file is skipped; an entry is appended exactly when the rule engages, ToJSON converts it and the evaluation yields a result set, labelled with the rule and its policy; an engaging rule drains the stream and fails on a drained one |
| GitFilter.Rules | internal/crud/git.go:325-401 | the rules in order leave the entry's identity and the set of streams unchanged; each step, errors included, is `RuleStep` (see `RulesStep`, `RulesKeepIff`, `InvalidRuleAborts`) |
| GitFilter.Files | internal/crud/git.go:324-402 | the pass over entries keeps the set of streams; each step is `Rules` on one entry (see `FilesStep`, `FilesOutput`, `InvalidRegexpNeedsAnEntry`) |
| GitFilter.Derived | internal/crud/git.go:316-320 | the base fields are copied; count, lists and policy are zero |
| GitFilter.Apply | internal/crud/git.go:326-400 | the imperative body for one (entry, rule) pair agrees with `RuleStep`, including the stream it drains |
| GitFilter.RulesSticky | internal/crud/git.go:327-383 | an error at one rule is the error of all the rules for the entry |
| GitFilter.FilesSticky | internal/crud/git.go:324-402 | an error at one entry is the error of the pass |
| GitFilter.RulesStep | internal/crud/git.go:325 | one more rule continues the inner loop |
| GitFilter.FilesStep | internal/crud/git.go:324 | one more entry continues the outer loop |
| GitFilter.RulesAdvance | internal/crud/git.go:325-401 | the inner loop advances one rule at a time |
| GitFilter.ApplyRules | internal/crud/git.go:325-401 | the inner loop agrees with `Rules` on its result and on every stream |
| GitFilter.Filter | internal/crud/git.go:313-405 | the nested loops agree with `Files`: an error aborts with no collection; success returns the base fields and the kept entries, and leaves each stream as `Files` says |
| GitFilterFacts.RulesNormaliseOnce | internal/crud/git.go:363-367 | in a successful pass an entry is normalised at most once; never from a drained stream; its stream is drained exactly when some rule engaged |
| GitFilterFacts.RulesOutput | internal/crud/git.go:386-400 | the rules append an entry at most once, as itself relabelled by an engaging rule, and nothing else |
| GitFilterFacts.FilesPrefixOk | internal/crud/git.go:324 | a successful pass succeeded on every prefix of the entries |
| GitFilterFacts.FilesDrain | internal/crud/git.go:363 | after a pass every stream is unchanged or drained, and every engaged entry's stream is drained |
| GitFilterFacts.DrainStep | internal/crud/git.go:363 | the rules for one more entry keep every stream unchanged or drained, and drain it when it engaged |
| GitFilterFacts.FilesOutput | internal/crud/git.go:324-400 | the output lists kept entries in input order, each relabelled by an engaging rule, of a convertible format; and every entry some rule keeps is among them |
| GitFilterFacts.Origins | internal/crud/git.go:386-400 | one more entry extends the origins of the output by itself exactly when its rules kept it, and leaves them as they were otherwise |
| GitFilterFacts.RulesKeepIff | internal/crud/git.go:325-400 | the rules for one entry add output exactly when some rule keeps the entry judged on its original bytes |
| GitFilterFacts.LastKept | internal/crud/git.go:324-400 | a last entry that some rule keeps adds to the output of the pass |
| GitFilterFacts.Completes | internal/crud/git.go:324-400 | completeness for all but the last entry and for the last entry gives completeness for all |
| GitFilterFacts.InvalidRuleAborts | internal/crud/git.go:327-330 | a rule whose regexp does not compile makes the rules for any entry fail, wherever it stands |
| GitFilterFacts.Reach | internal/crud/git.go:324-325 | in a successful pass the rules for each entry start from what earlier entries left |
| GitFilterFacts.Entering | internal/crud/git.go:324-367 | in a successful pass entry `i` meets its rules with a drained stream when that stream started drained or an earlier engaged entry shares it |
| GitFilterFacts.TwoRulesAbort | internal/crud/git.go:325-367 | an entry two rules engage makes the pass fail |
| GitFilterFacts.SharedStreamAborts | internal/crud/git.go:324-367 | two engaged entries sharing a stream make the pass fail |
| GitFilterFacts.DrainedStreamAborts | internal/crud/git.go:363-367 | an engaged entry whose stream is already drained makes the pass fail |
| GitFilterFacts.FilterTwiceFails | internal/crud/git.go:324-367 | a second pass after one that kept something fails |
| GitFilterFacts.InvalidRegexpNeedsAnEntry | internal/crud/git.go:324-330 | no entries means no error for any rules; with an entry, any uncompilable rule makes the pass fail, and an uncompilable first rule is the error |
| GitFilterFacts.PolicyBeforeNormalisation | internal/crud/git.go:341-368 | a policy failure aborts before the file is normalised, even for an unsupported file |
| GitFilterFacts.UnsupportedNeverKept | internal/crud/git.go:363-365 | every kept entry has a convertible name, and so has a dot |
| LegacyWalk.Record | internal/crud/default.go:131-145 | Config holds exactly when `In(names, path)`, where GetGitCollection passes configFiles; a configuration file carries its blob's bytes and any other file none; the hash is the blob's |
| LegacyWalk.UpToFailure | internal/crud/default.go:129-153 | the recorded files are the longest prefix holding no unreadable configuration file |
| LegacyWalk.UpToFailureAt | internal/crud/default.go:141-144 | the first unreadable configuration file ends the records |
| LegacyWalk.Callback | internal/crud/default.go:162-181 | the callback fails only on an unreadable configuration file; otherwise it appends the record |
| LegacyWalk.RecordsStep | internal/crud/default.go:179 | one more visited file appends its record |
| LegacyWalk.RootRound | internal/crud/default.go:162-181 | one callback of the root walk either ends the records at an unreadable configuration file or appends one record |
| LegacyWalk.RetrieveFromRoot | internal/crud/default.go:158-185 | a record per tree file, in order, up to the first unreadable configuration file; the failure is swallowed |
| LegacyWalk.KeptUpTo | internal/crud/default.go:129-153 | a stop in the dir walk records what came before among the files under `dir` |
| LegacyWalk.DirRound | internal/crud/default.go:129-153 | one callback of the dir walk either ends the records at an unreadable configuration file under `dir` or keeps the records in step with the selected files |
| LegacyWalk.RetrieveFromDir | internal/crud/default.go:125-154 | the same over the files whose path contains `dir`, named after the first "/", with `url/blob/hash/dir/name` links |
| LegacyWalk.GetGitCollection | internal/crud/default.go:102-120 | the base fields with BaseDir `dir` or "/", and the walk's records; never an error |
| LegacyWalk.ConfigByMarker | internal/crud/default.go:37-49 | a listed name anywhere in the path makes a configuration file |
| LegacyWalk.PackageJsonIsConfig | internal/crud/default.go:37-49 | "package.json" is a configuration file |
| LegacyWalk.AndroidManifestIsConfig | internal/crud/default.go:37-49 | "AndroidManifest.xml" is a configuration file |
| LegacyWalk.NestedDockerfileIsConfig | internal/crud/default.go:37-49 | "deploy/Dockerfile" is a configuration file |
| LegacyWalk.LowercaseDockerfileNotConfig | internal/crud/default.go:37-49 | "dockerfile" is not a configuration file |
| LegacyWalk.FirstCharAbsent | internal/util/strings.go:8 | a name whose first character does not occur in the path is not contained in it |
| LegacyFilter.Categories | internal/crud/encoding.go:49-87 | four categories, in chain order |
| LegacyFilter.FirstClaimIsFirst | internal/crud/encoding.go:60-90 | the chain's reference reading: nothing is found exactly when no category claims the name, else the first claiming category |
| LegacyFilter.SelectPrecedence | internal/crud/encoding.go:60-90 | the first enabled category in the order Docker, Terraform, Manifest, Gradle whose names `In`-match wins; none when none claims the name; an empty regexp falls through |
| LegacyFilter.SelectChain | internal/crud/encoding.go:60-90 | the if/else chain over Docker, Terraform, Manifest, Gradle picks the first claiming category |
| LegacyFilter.DockerBeforeTerraform | internal/crud/encoding.go:60-73 | "Dockerfile.tf" is Docker when Docker is on, Terraform when it is off |
| LegacyFilter.Outcome | internal/crud/encoding.go:57-95 | an error, naming the category, exactly when a configuration entry's selected regexp does not compile; kept exactly when it compiles and matches the content, labelled with the category |
| LegacyFilter.FilterSpecStep | internal/crud/encoding.go:56-96 | one more entry continues the loop |
| LegacyFilter.FilterSpecSticky | internal/crud/encoding.go:63-87 | an error at one entry is the error of the loop |
| LegacyFilter.Classify | internal/crud/encoding.go:57-95 | the loop body for one entry agrees with `Outcome`: skip, keep relabelled, or the invalid regexp of the selected category |
| LegacyFilter.Filter | internal/crud/encoding.go:40-99 | the loop returns the first invalid regexp, or the base fields and the kept entries |
| LegacyFilter.FilterFailsIff | internal/crud/encoding.go:63-87 | fails exactly when some configuration entry selects a category whose regexp does not compile |
| LegacyFilter.FilterOutput | internal/crud/encoding.go:56-98 | the output is an order-preserving subsequence: exactly the configuration entries whose selected regexp matches their content, relabelled |
| LegacyFilter.FilterIdempotent | internal/crud/encoding.go:56-98 | filtering a filtered collection again returns it unchanged |

## Left out

- Git access is not modelled: clone or open, HEAD and commit resolution, and tree iteration (internal/crud/git.go:86-125, internal/crud/default.go:52-100). The tree arrives as a sequence of files.
- enry, the regexp engine, YAML-to-JSON, `getHclJSON`, `json.Marshal`, the HTTP download, `ioutil.ReadFile(defaultPolicy)` and OPA evaluation are parameters with no behaviour of their own. getHclJSON is not part of this model.
- `OutputPolicy` text is an abstract summary that the evaluation returns. Its formatting depends on Go map order and a type assertion that can panic.
- `ToJSONFile` and the older `ToJSON` (file creation, random names, encoding) are left out. Only the field projection by JSON tags is modelled (`GitTypes.ToDoc`).
- GitTypes.ToDoc: Go encodes a nil slice as `null` and an empty one as `[]`; the model does not tell them apart for `file_extensions` and `unknown`.
- The web and CLI front ends and the test drivers are left out.
- Conv.ToJSON: a stream that fails mid-read is not modelled. Reading returns the blob's bytes, so `ReadFailed` cannot arise from `Filter`.
- Conv.ToJSON: the `len(input) == 0` test after conversion is not modelled separately. Converters return non-empty JSON, so that branch is dead.
- GitFilter.Filter: on an error, the contract does not state how far the streams were drained.
- GitFilter.Apply: `OutputPolicy` is overwritten by the evaluation's summary only. Which of several result sets' keys wins is not modelled.
- LegacyWalk.GetGitCollection: the "retrieving list of files" error is not modelled, because the walkers never return one.
- Byte content is modelled as characters: a Go string is a byte string.
