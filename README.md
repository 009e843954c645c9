# locksmith core in Dafny

locksmith builds an `renv.lock` file for a set of R packages that live in git
repositories. It does this in five steps:

- It downloads each package's DESCRIPTION file from GitHub or GitLab.
- It downloads the PACKAGES index of every configured package repository.
- It cleans and parses both kinds of file into package records with typed dependencies.
- It resolves the dependencies depth-first against the repositories, in priority order.
- It assembles the lockfile. In the lockfile, packages are keyed by name and repositories appear under their aliases.

This project models that core and proves properties of the model. The modules
follow the files in `cmd/`:

| module | file | what it holds |
|---|---|---|
| `Structs` | `structs.dfy` | the records of `cmd/structs.go` as datatypes |
| `Strings` | `strings.dfy` | the Go library functions the core calls, on `seq<char>` |
| `Utils` | `utils.dfy` | `stringInSlice`, `stringsToInts`, `ParseInput` |
| `Versions` | `versions.dfy` | `splitVersion` and `checkIfVersionSufficient` |
| `Resolver` | `resolver.dfy` | the other functions of `cmd/construct.go` |
| `Parse` | `parse.dfy` | `cmd/parse.go` |
| `Renv` | `renv.dfy` | `cmd/renv.go` |
| `Download` | `download.dfy` | `cmd/download.go`, minus the HTTP client |

`Strings` holds `strings.Split`, `Join`, `ReplaceAll`, `TrimSpace`, `FieldsFunc`, `HasPrefix` and `TrimPrefix`.

Code that updates state step by step is written as methods with loops. Each
method is proved equal to a specification function, and the properties are
proved about those functions:

- the output list of the resolver is a class field;
- the cleaner's line loop, the dependency loops and the PACKAGES block loop are loops;
- the two loops of the lockfile builder are loops;
- the GitHub subdirectory loop and the download loops are loops.

The following are function parameters:

- The HTTP download is `download(url, headers)`, which returns `Fetched(body)` or `FetchFailed`.
- The JSON decoding of API responses is `jsonField(body, path)`.
- The YAML decoding of cleaned DESCRIPTION/PACKAGES text is `unmarshal(text)`, a field map.
- The GitHub and GitLab tokens (package globals in Go) are plain string parameters.

Go map iteration order is unspecified. Loops over a map therefore pick the next
key with `:|`, and every contract holds for every order.

Inputs on which the Go code panics become preconditions. These are:

- a GitHub URL with fewer than three segments, or with a DESCRIPTION segment among the first three;
- a GitLab URL with fewer than eight segments;
- a dependency item without a name token;
- a bracketed constraint without a space;
- an item that has both brackets but no ')' after a '(' on the same line, so that `\(.*\)` finds nothing and the empty match is sliced.

The resolver does not take the comparator's panic as a precondition. An index
entry whose name matches, checked under a constraint where neither version string
has a component, makes `checkIfVersionSufficient` index an empty list. The model
ends the walk there with an explicit `Panic` result (`Aborted` for the whole walk),
because Go only reaches that comparison for some indexes and some requirements.

## Model

| member | source | states |
|---|---|---|
| Versions.Verdict | cmd/construct.go:229-245 | ">=" accepts exactly an outcome that is not "<", ">" accepts exactly ">", and no other operator ever accepts |
| Versions.PadComponents | cmd/construct.go:183-192 | the two padding loops as written leave the pair PadHalf describes: the second loop sees the list the first one grew |
| Versions.PadHalfShape | cmd/construct.go:183-192 | because each loop re-reads the length it grows, only the shorter list is padded, and only by half the difference rounded up |
| Versions.IntsOfPadHalf | cmd/construct.go:183-195 | converting after padding with "-1" is the same as padding with -1 after converting |
| Versions.ComponentsNonNegative | cmd/construct.go:177-179 | components never contain '-', so they never parse to a negative number |
| Versions.PadHalfLadderSafe | cmd/construct.go:181-228 | with non-negative components (not both lists empty), the ladder never indexes past the end of the available list |
| Versions.CheckIfVersionSufficient | cmd/construct.go:170-246 | the comparator equals VersionSufficient: true without a constraint, otherwise the ladder outcome on the half-padded components mapped through the operator |
| Versions.LadderMatchesReference | cmd/construct.go:181-228 | on non-negative components, the ladder over half padding gives the same order as full -1 padding followed by lexicographic comparison of the first four components |
| Versions.VersionSufficientMeaning | cmd/construct.go:170-246 | sufficient iff there is no constraint, or ">=" with the reference order not Less, or ">" with the reference order Greater |
| Versions.CompareVersionsAntisymmetric | cmd/construct.go:197-228 | swapping the two versions reverses the outcome |
| Versions.CompareVersionsReflexive | cmd/construct.go:197-228 | every version compares equal to itself |
| Versions.OnlyFourComponentsMatter | cmd/construct.go:197-228 | components after the fourth never change the outcome |
| Versions.LexFromFirstDifference | cmd/construct.go:197-228 | the first differing component decides the comparison |
| Versions.MissingComponentRanksLower | cmd/construct.go:181-192 | a missing trailing component ranks below any present one (1.2 < 1.2.3) |
| Versions.DotsAndDashesEquivalent | cmd/construct.go:156-158 | writing every '-' as '.' leaves the components unchanged |
| Versions.ComponentsOfDotted | cmd/construct.go:177-179 | non-empty separator-free pieces joined by '.' are read back as exactly those pieces |
| Utils.StringInSlice | cmd/utils.go:38-45 | true iff the string occurs in the list |
| Utils.StringsToInts | cmd/utils.go:107-115 | one integer per input, in order; each is strconv.Atoi's value, and 0 for a non-numeric string; the same loop is at cmd/construct.go:160-168 |
| Utils.IntsOfAt | cmd/utils.go:107-115 | position i of the converted list is the Atoi value of input i |
| Strings.AtoiOfDigits | cmd/utils.go:109 | an optionally signed run of digits converts to its value, clamped to the 64-bit range with an error when it does not fit |
| Strings.SyntaxErrorMeaning | cmd/utils.go:109 | the conversion fails with 0 exactly for an empty number, or a non-digit reached before the digits read so far leave the unsigned 64-bit range |
| Strings.AtoiOverflow | cmd/utils.go:109 | digits that already leave the unsigned 64-bit range decide the result, whatever follows: the bound of the sign |
| Strings.AtoiMinusOne | cmd/construct.go:185 | the padding component "-1" converts to -1 |
| Utils.ParseRepositoryList | cmd/utils.go:91-100 | fails on an item without '=' and only then; on success, the URLs in input order, and the alias map built from the same items |
| Utils.ParseInput | cmd/utils.go:51-105 | the fatal cases (no packages; then no repositories; then a malformed repository item); success exactly when none applies; a non-empty CLI string takes precedence over the configured list; the allowed-missing types are empty iff the flag is empty |
| Utils.RepositoryItemShape | cmd/utils.go:97-99 | an item is its alias, '=', its URL and possibly more text starting with '='; neither alias nor URL contains '=' |
| Utils.RepositoryItemOf | cmd/utils.go:97-99 | "alias=url" with '='-free parts is read back as that alias and that URL |
| Utils.MapOfLastWins | cmd/utils.go:91-100 | a map filled pair by pair holds a key iff some pair has it, with the value of the last such pair |
| Utils.RepositoryMapLastWins | cmd/utils.go:91-100 | the alias map holds exactly the items' aliases, each sent to the URL of the last item with that alias |
| Resolver.CheckIfBasePackage | cmd/construct.go:135-145 | true iff the name is one of the sixteen packages that ship with R |
| Resolver.CheckIfPackageOnOutputList | cmd/construct.go:147-154 | true iff some output entry carries the name |
| Resolver.FirstSufficient | cmd/construct.go:80-95 | a found position holds an entry with the name whose version satisfies the constraint; no entry before it, and no entry at all when nothing is found, is accepted or panics |
| Resolver.FirstSufficientPanic | cmd/construct.go:81-86 | the scan panics iff an entry with the name and an incomparable version comes before every accepted entry |
| Resolver.FindSufficient | cmd/construct.go:80-95 | the scan of one index passes over other names and insufficient versions, stops at the first accepted entry, and panics on an incomparable one, as FirstSufficient states |
| Resolver.FirstRepository | cmd/construct.go:78-100 | a found position is that of a repository whose scan accepts an entry |
| Resolver.FirstRepositoryAt | cmd/construct.go:78-100 | repositories are tried in priority order: the first one whose scan does not come up empty decides, with its accepted entry or its panic |
| Resolver.FirstRepositoryNone | cmd/construct.go:78-133 | when no repository's scan accepts or panics, none is taken |
| Resolver.ChosenFromIndex | cmd/construct.go:98-100 | the appended entry carries the requested name, a version listed in an index, and the URL of the repository it was taken from |
| Resolver.ResolveTakes | cmd/construct.go:78-124 | when repository i is the first with an accepted entry and j is the first accepted entry there, exactly that entry is appended, and its Depends and Imports are resolved next |
| Resolver.ResolveAborts | cmd/construct.go:78-95 | when the first repository whose scan does not come up empty meets an incomparable entry first, the walk aborts |
| Resolver.ResolveMisses | cmd/construct.go:126-133 | when no repository has an accepted or panicking entry, the list is left as it was |
| Resolver.Resolve | cmd/construct.go:64-133 | unless it aborts, the walk only appends, and only names from the indexes; it terminates because the count of index names not yet listed decreases |
| Resolver.Step | cmd/construct.go:101-121 | one dependency either leaves the list alone or grows it with index names only |
| Resolver.ResolveDeps | cmd/construct.go:101-122 | a dependency loop only appends names from the indexes |
| Resolver.Roots | cmd/construct.go:34-38 | the seeded list has one entry per root package |
| Resolver.RootsAt | cmd/construct.go:34-38 | each root package is seeded as itself, at its own position |
| Resolver.ResolveRoots | cmd/construct.go:39-60 | resolving the roots' dependencies only appends names from the indexes |
| Resolver.ResolveSound | cmd/construct.go:64-133 | resolving a name appends only non-base packages taken from an index, and never a name already listed |
| Resolver.StepSound | cmd/construct.go:101-121 | one dependency step keeps that soundness |
| Resolver.ResolveDepsSound | cmd/construct.go:101-122 | a dependency loop keeps that soundness |
| Resolver.ResolveRootsSound | cmd/construct.go:39-60 | the loop over the roots keeps that soundness |
| Resolver.ConstructSound | cmd/construct.go:30-62 | unless the walk aborts, the output starts with the roots in input order; every later entry is a non-base package from an index entry of the repository it names; names are unique when the roots' names are |
| Resolver.ResolveClosed | cmd/construct.go:64-133 | after resolving a name without a panic, the name is a base package, listed, or offered by no repository in a sufficient version, and every appended entry has an index entry behind it whose Depends and Imports are covered in the same way |
| Resolver.StepClosed | cmd/construct.go:101-121 | one dependency step keeps the appended entries closed and covers the dependency when its type is followed |
| Resolver.ResolveDepsClosed | cmd/construct.go:101-122 | after a dependency loop every dependency of a followed type is covered, and every appended entry is closed |
| Resolver.ResolveRootsClosed | cmd/construct.go:39-60 | after the loop over the roots, every root's Depends, Imports and Suggests are covered, and every appended entry is closed |
| Resolver.ConstructClosed | cmd/construct.go:30-133 | unless the walk aborts, the output is closed: each followed dependency of a root or of the index entry behind a resolved package is a base package, a listed name, or a name no repository offers in a sufficient version |
| Resolver.ResolveIdempotent | cmd/construct.go:70-77 | resolving the same name a second time changes nothing |
| Resolver.ResolveDepsUnfollowed | cmd/construct.go:101-103 | a list whose entries are all of types that are not followed leaves the list unchanged |
| Resolver.FollowedOnly | cmd/construct.go:101-103 | the filtered list holds exactly the entries whose type is followed |
| Resolver.ResolveDepsFollowedOnly | cmd/construct.go:101-122 | for any list, mixed or not, the dependency loop ends exactly as the loop over its followed entries alone: LinkingTo and Enhances (and Suggests below the roots) never affect the walk |
| Resolver.ResolveDepsSkipped | cmd/construct.go:101-111 | a dependency on a base package, or on a name already listed, is skipped |
| Resolver.OutputList.constructor | cmd/construct.go:32 | the shared output list starts empty |
| Resolver.OutputList.ResolveDependenciesRecursively | cmd/construct.go:64-133 | it reports a panic iff Resolve of the list before aborts, and otherwise leaves the shared list as Resolve's result |
| Resolver.OutputList.ResolveFromRepository | cmd/construct.go:80-125 | either the repository's scan comes up empty and the list is unchanged, or the outcome is that of Resolve of the list before |
| Resolver.OutputList.ResolveDependency | cmd/construct.go:101-121 | the outcome is Step of the list before |
| Resolver.OutputList.ResolveDependencyList | cmd/construct.go:101-122 | the outcome is ResolveDeps of the list before |
| Resolver.ConstructOutputPackageList | cmd/construct.go:30-62 | the result is Construct: the roots seeded, then each root's Depends, Imports and Suggests resolved in turn, or Aborted on a panic |
| Parse.CleanDescriptionOrPackagesEntry | cmd/parse.go:107-140 | the line loop computes Clean |
| Parse.CleanMeaning | cmd/parse.go:107-140 | the output is "" for a PACKAGES entry with a "Path:" line; otherwise, in input order, each kept-field line after "\n", each continuation of a kept field trimmed after " ", and nothing from other lines |
| Parse.ScanMeaning | cmd/parse.go:112-138 | the loop state is the kept text so far, plus whether a kept field is open |
| Parse.StepMeaning | cmd/parse.go:120-137 | one line adds its contribution and updates whether a kept field is open |
| Parse.PathFoundPersists | cmd/parse.go:113-119 | once a PACKAGES entry is rejected, later lines do not matter |
| Parse.PathLineDropped | cmd/parse.go:113-137 | in DESCRIPTION mode a "Path:" line adds nothing and closes the open field |
| Parse.DescriptionKept | cmd/parse.go:113-119 | a DESCRIPTION file is never rejected |
| Parse.KeptFieldNotContinued | cmd/parse.go:122-137 | a kept field line is never a continuation line |
| Parse.KeptTextNonEmpty | cmd/parse.go:122-129 | a kept-field line anywhere makes the cleaned text non-empty |
| Parse.EntrySkipped | cmd/parse.go:52-63 | a PACKAGES entry is skipped iff it is empty, has a "Path:" line, or keeps nothing; an entry with a kept field and no "Path:" line is listed |
| Parse.PackageNameOfHeader | cmd/parse.go:56-57 | an entry starting "Package: name" is listed under that name |
| Parse.ProcessPackagesEntry | cmd/parse.go:56-77 | a listed entry becomes a record of its name, its Version field and its dependencies, with every other field empty |
| Parse.ProcessPackagesFile | cmd/parse.go:47-80 | the records of the non-skipped blocks, in file order, after CRLF becomes LF and the text is cut at blank lines |
| Parse.IndexEntriesAppend | cmd/parse.go:51-78 | the records of two consecutive runs of blocks are those of each run, in order |
| Parse.ParsePackagesFiles | cmd/parse.go:36-43 | the same keys as the input, and each repository's text parsed |
| Parse.ProcessDescription | cmd/parse.go:84-100 | one record is appended after the existing ones |
| Parse.ParseDescriptionFileList | cmd/parse.go:27-33 | one record per file, in order, with Source copied from the file's package source and the Remote fields copied across |
| Parse.ParenFrom | cmd/parse.go:166-169 | a match of `\(.*\)` is an opening bracket before a closing one |
| Parse.ParenSingleLine | cmd/parse.go:166-169 | on one line the match runs from the first '(' to the last ')' |
| Parse.ParseDependencyItem | cmd/parse.go:156-178 | one non-empty item becomes ParseDependency of it |
| Parse.ProcessDependencyItems | cmd/parse.go:153-180 | the items of one field are appended after the existing dependencies |
| Parse.ProcessFields | cmd/parse.go:152-181 | the fields are processed in the given order, each appended after the previous ones |
| Parse.ProcessDependencyFields | cmd/parse.go:148-182 | the dependencies are appended after what the slice already held |
| Parse.DependencyName | cmd/parse.go:159-162 | the name is the first non-empty run of the trimmed item free of ' ' and '(', so it contains neither |
| Parse.ConstraintParts | cmd/parse.go:170-171 | the operator is the text up to the first space; the value runs from there to the next space or the end |
| Parse.DependencyConstraint | cmd/parse.go:166-172 | with both brackets present, operator and value come from the bracketed text |
| Parse.DependencyUnconstrained | cmd/parse.go:163-166 | without both brackets, operator and value are empty |
| Parse.WrittenConstraintParts | cmd/parse.go:170-171 | "op value" of two plain tokens splits back into them |
| Parse.ParseWrittenDependency | cmd/parse.go:159-178 | "name (op value)" is read back as exactly that name, operator and value, typed by its field |
| Parse.ParseWrittenName | cmd/parse.go:159-172 | a bare name is read back as itself, with no constraint |
| Parse.ItemDependenciesTyped | cmd/parse.go:154-178 | every dependency from a field has that field as its type and a non-empty name |
| Parse.DependenciesTyped | cmd/parse.go:150-178 | every dependency's type is one of the five dependency fields, which the map holds |
| Parse.DependenciesInFieldOrder | cmd/parse.go:150-153 | the dependencies come field by field: Depends, Imports, Suggests, Enhances, LinkingTo |
| Parse.ItemDependenciesOfNames | cmd/parse.go:154-178 | a list of bare names yields one unconstrained dependency per name, in order |
| Parse.FieldOfNames | cmd/parse.go:154-158 | a field of bare names joined by ',' is read back as those names |
| Renv.LastKept | cmd/renv.go:22-31 | -1, or the position of a kept entry with the given name |
| Renv.LastKeptIsLast | cmd/renv.go:22-31 | no kept entry of that name comes later, so a later entry overwrites an earlier one |
| Renv.KeptNamesLastKept | cmd/renv.go:22-31 | a name is in the lockfile iff some kept entry carries it |
| Renv.GetRepositoryKeyByValue | cmd/renv.go:38-45 | for any iteration order: an alias the map sends to the URL when there is one, and "" otherwise |
| Renv.ListRepositories | cmd/renv.go:32-34 | each map entry appears exactly once, as (alias, URL), in some order |
| Renv.StoreCleared | cmd/renv.go:25-27 | a cleared entry leaves the packages map as it was |
| Renv.StoreKept | cmd/renv.go:28-30 | a kept entry, with its repository replaced by an alias, overwrites whatever its name held |
| Renv.StorePackages | cmd/renv.go:22-31 | the keys are exactly the names of kept entries; each value is the last kept entry of its name with the repository replaced by an alias of its URL |
| Renv.GenerateRenvLock | cmd/renv.go:19-36 | the lockfile's packages as StorePackages states, and its repositories listing every map entry once |
| Renv.StoredEntry | cmd/renv.go:28-30 | a stored entry sits under its own name, was not cleared, and differs from its input only in the repository |
| Renv.ClearedNotStored | cmd/renv.go:25-27 | an entry with an empty Package, Version or Source never reaches the lockfile unless a kept entry has the same name |
| Renv.AliasUnique | cmd/renv.go:38-45 | when no two aliases share a URL, the alias found is the only possible answer |
| Renv.AliasListed | cmd/renv.go:28-34 | the alias an entry carries for a listed URL is one of the lockfile's repositories, paired there with that URL |
| Download.TagRefMeaning | cmd/download.go:99-107 | the unanchored `v\d+(\.\d+)*` matches iff the ref has a 'v' followed by a digit |
| Download.RefKinds | cmd/download.go:99-136 | both hosts make the same tag-or-branch decision: "tags" when the ref has 'v' then a digit, otherwise "branches" (GitLab) or "heads" (GitHub) |
| Download.SplitLastMeaning | cmd/download.go:92-95 | the last piece holds no separator; with a separator, the two halves around it give back the string; without one, the halves are "" and the whole string |
| Download.SplitLastOfJoin | cmd/download.go:92-95 | separator-free pieces joined and followed by a last piece split back into that join and that piece |
| Download.GitLabNamespace | cmd/download.go:87-98 | user is path_with_namespace up to its last '/', and repo is the '/'-free rest; a failed download leaves both "" |
| Download.GitLabShaOf | cmd/download.go:99-116 | the SHA is the commit id of the tag record when the ref has 'v' then a digit, of the branch record otherwise, and "" when that record cannot be downloaded |
| Download.GitHubShaOf | cmd/download.go:127-148 | the SHA is the object SHA of the tag reference when the ref has 'v' then a digit, of the head reference otherwise, and "" when that reference cannot be downloaded |
| Download.GitLabNamespaceOfGroups | cmd/download.go:92-95 | "g1/.../gn/project" gives user "g1/.../gn" and repo "project" |
| Download.LastIndexOfIsLast | cmd/download.go:175-179 | no later segment carries the name |
| Download.GitHubSubdirectory | cmd/download.go:175-179 | each DESCRIPTION segment resets the subdirectory, so the result is the segments between the ref and the last DESCRIPTION segment |
| Download.RefFrom | cmd/download.go:184 | a match of `ref=.*$` starts at an occurrence of "ref=" with no newline after it |
| Download.RefFromSingleLine | cmd/download.go:184 | on one line the match is the leftmost "ref=" |
| Download.GitLabRef | cmd/download.go:184-192 | the ref of a one-line URL is everything after its leftmost "ref=", or "" without one |
| Download.GitLabSubdirMeaning | cmd/download.go:194-199 | when segment 7 encodes a path: decoded, it is the subdirectory, '/', and a '/'-free last part; otherwise the subdirectory is "" |
| Download.ProcessGitHubURL | cmd/download.go:160-179 | the GitHub branch computes GitHubRemote |
| Download.ProcessGitLabURL | cmd/download.go:180-201 | the GitLab branch computes GitLabRemote |
| Download.ProcessDescriptionURL | cmd/download.go:154-203 | the result is RemoteOf the URL |
| Download.RemoteOfBranch | cmd/download.go:160-180 | a URL with the GitHub prefix takes the GitHub branch, any other the GitLab branch |
| Download.RemoteKind | cmd/download.go:160-191 | type "github" iff the URL has the raw-content prefix, and then source "GitHub" and host "api.github.com"; otherwise "gitlab", "GitLab" and an "https://" host |
| Download.GitHubSegmentsOfJoin | cmd/download.go:168-172 | the segments of a raw URL built from '/'-free parts are those parts |
| Download.GitHubSubdirOfParts | cmd/download.go:175-179 | with DESCRIPTION only at the end, the subdirectory is the parts between the ref and it |
| Download.GitHubURLRoundTrip | cmd/download.go:168-179 | a raw URL built from user, repo, ref, subdirectories and DESCRIPTION is accepted and taken apart into exactly those parts |
| Download.DownloadDescriptionFile | cmd/download.go:211-234 | one URL contributes its file with its coordinates, or nothing when its download fails |
| Download.DownloadDescriptionFiles | cmd/download.go:208-237 | the result is DescriptionFilesOf the list |
| Download.DescriptionFilesAppend | cmd/download.go:208-237 | the files of two lists are the files of each, in order: one entry per successful download, in input order |
| Download.DescriptionFilesCount | cmd/download.go:219-234 | at most one file per URL, and exactly one per URL when no download fails |
| Download.PackagesURLChoice | cmd/download.go:243-250 | the index is at repo + "/PACKAGES" iff the URL contains "/bin/windows/" or "/bin/macosx"; otherwise at repo + "/src/contrib/PACKAGES" |
| Download.PackagesFileContentOf | cmd/download.go:241-258 | the index text fetched without headers from the URL PackagesURLChoice describes, or "" when that download fails |
| Download.DownloadPackagesFiles | cmd/download.go:263-270 | the keys are exactly the listed repositories, and each value is that repository's index text, or "" when its download fails |

## Left out

- `cmd/root.go` (CLI wiring, configuration loading, log setup) and `cmd/report.go` (HTML report) are not part of this model.
- `DownloadTextFile` (HTTP and TLS) is the `download` parameter. Its byte count is dropped, and its request headers appear only as the token map.
- JSON decoding of API responses is the `jsonField` parameter. The decoder's error path, which only logs, is left out.
- `yaml.Unmarshal` is the `unmarshal` parameter, modelled as a total function. Its error paths log and continue, and they are left out.
- Logging has no effect in the model. `log.Fatal` in `ParseInput` becomes a `Failure` result. `writeJSON` is file output and is left out.
- `strconv.Atoi` assumes Go's 64-bit `int`: out-of-range values clamp to the bounds, and a syntax error gives 0. The digits are read in order, so an overflow seen before a later non-digit is a range error, as in Go.
- The regular expressions are explicit predicates: `\(.*\)` and `ref=.*$` (a `.` that does not match a newline), and the unanchored `v\d+(\.\d+)*`, which is "`v` then a digit".
- Go map iteration order is nondeterministic choice (`:|`). The repositories list of the lockfile is stated as a listing of the map in some order, that is, a permutation.
- The recursion level of `resolveDependenciesRecursively` only indents log lines and is left out.
- The code mixes revisions, and the model follows the code as written:
  - `parse.go` builds records with 14 positional values, but `structs.go` declares 12 fields; the model uses the 12 of `structs.go`.
  - `renv.go` writes `R.Packages`; the model uses the lockfile's `packages` map as `structs.go` declares it.
  - `prettyPrint` is commented out in `utils.go`, so `GenerateRenvLock` returns the lockfile it builds.
  - The undefined `https` constant is taken as "https://".
  - `stringsToInts` is defined twice. It is modelled once.
  - The allowed-missing dependency handling that `construct_test.go` expects is absent from `construct.go` and is not modelled.
- Panicking inputs are preconditions, as listed above. The comparator's panic inside the resolver is the explicit `Panic`/`Aborted` outcome instead; its log output is left out.
- Renv.StoredEntry, Renv.AliasUnique: these follow directly from the definitions of StoredAs and IsAliasFor. They restate those definitions as separate facts.
- Download.GitHubURLRoundTrip: stated over GitHubRemote rather than RemoteOf. Download.RemoteOfBranch links the two.
- Download.GitLabSubdirMeaning: states what the subdirectory comes back to, not a full decode/encode round trip of the "%2F" escaping.
- `GetGitHubSha` and `GetGitLabProjectAndSha`: the SHA and the namespace are whatever `jsonField` picks out of the downloaded record.
