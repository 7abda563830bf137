# NuGet gallery package API: a verified model of its request decisions

This project models the package API controller of the NuGet gallery
(`Website/Controllers/ApiController.cs`) and proves properties of the model in Dafny.
The controller's services are replaced by an in-memory catalog: package registrations
(id, owners, versions), users keyed by API key, and a log of download statistics.
Five operations are modelled:

- **VerifyPackageKey**: checks that an API key is valid and, when an id is given, that
  its user owns that package.
- **CreatePackageInternal** (push): checks the key, the owner and that the version is
  new, then creates the package. For `NuGet.CommandLine` it may also refresh the served
  `nuget.exe`.
- **DeletePackage**: checks the key, the package and the owner, then unlists the
  package.
- **GetPackage**: finds a package and records one download. It then redirects to the
  package's external URL or serves the stored file.
- **GetDependents**: finds latest packages that depend on a given id. It ranks them by
  registration downloads, caps the list at 20, and keeps those whose version spec admits
  the source version.

`OnException` is modelled too: it chooses the body of the 500 response.

Modules, one file each:

- `Wrappers`: `Option` and `Result`.
- `Text`: the .NET string behaviour the model relies on. The controller uses
  `IsNullOrWhiteSpace` and ordinal case-insensitive equality (`IsNullOrEmpty` is `== ""`);
  `Guid.TryParse` uses `Trim`.
- `Guids`: `Guid.TryParse`, the check that an API key is well formed, and the
  `Guid.ToString` forms.
- `Gallery`: the catalog entities and the invariant the catalog keeps. It also has the
  service lookups `FindPackageRegistrationById` and `FindPackageByIdAndVersion`, and the
  two updates `CreatePackage` and `MarkPackageUnlisted`.
- `Dependents`: the dependents query as specification functions, with lemmas about them.
- `Api`: the outcome types and the guard chains as pure functions. The class
  `ApiController` holds the catalog state; its methods change it.
- `ApiProperties`: lemmas that relate the operations to each other.

The NuGet library is a parameter: `VersionLibrary` bundles `SemanticVersion.Parse`,
`VersionUtility.ParseVersionSpec` and `IVersionSpec.Satisfies` as function values over
abstract version and spec types. A parse that throws in the library is `None` here, and
the query reports it as an explicit error. In the controller that error surfaces as an
HTTP 500 through `OnException`. A null string is modelled as `""`.

Facts about the controller that the model keeps:

- A key that is not a GUID gives 400 (BadRequest), not 403.
- An unreadable upload throws, so the response is a 500.
- The cap of 20 is applied before the spec filter. So the list can have fewer than 20
  entries even when more qualify.
- Ties in download count have no defined order in the database. The model ranks with a
  stable sort, so ties keep catalog order.

## Model

| member | source | states |
|---|---|---|
| Api.Authenticate | Website/Controllers/ApiController.cs:134-142 | BadRequest exactly when the key is not a GUID; success exactly when the parsed key names a user, and then it is that user; otherwise Forbidden for the given action |
| Api.VerifyPackageKey | Website/Controllers/ApiController.cs:132-156 | BadRequest iff the key is malformed; with no id, Ok iff the key authenticates; with an id and a valid key, NotFound when no package matches, Forbidden("push") for a non-owner, Ok for an owner; no other outcome |
| Api.PushGuard | Website/Controllers/ApiController.cs:170-200 | the push checks in source order: bad key, unknown key, unreadable artifact (500), existing registration not owned (Forbidden), version already present ignoring case (Conflict); success only for a version new to its registration |
| Api.ApiController.CreatePackageInternal | Website/Controllers/ApiController.cs:170-210 | a rejected push returns the guard's outcome and leaves the catalog unchanged; an accepted one returns Created, adds the package, keeps the catalog invariant, and refreshes nuget.exe iff the id equals NuGet.CommandLine ignoring case and the new package is latest stable |
| Api.DeleteGuard | Website/Controllers/ApiController.cs:213-231 | bad key gives BadRequest, unknown key Forbidden("delete"), no matching package NotFound, non-owner Forbidden("delete"), otherwise the package to unlist |
| Api.ApiController.DeletePackage | Website/Controllers/ApiController.cs:213-234 | a rejected delete leaves the catalog unchanged; an accepted one returns Ok, keeps the invariant and only unlists the package |
| Api.Resolve | Website/Controllers/ApiController.cs:47-66 | NotFound echoing the request iff no package matches; a redirect to exactly the external URL iff that URL is not blank; otherwise the stored file of the package found |
| Api.ApiController.GetPackage | Website/Controllers/ApiController.cs:47-66 | answers as Resolve; records exactly one download statistic, for the package found, and none when nothing matches |
| Api.ApiController.GetDependents | Website/Controllers/ApiController.cs:90-124 | the result is the dependents query: source version resolution, the ranked and capped rows, and the spec filter, with its three error cases |
| Api.ApiController.FilterBySpec | Website/Controllers/ApiController.cs:113-121 | the loop keeps, in order, the rows whose dependency spec is empty or satisfied, and fails with MalformedVersionSpec at the first spec that does not parse |
| Api.OnException | Website/Controllers/ApiController.cs:242-248 | status 500 with the message as description; the body is the stack trace for a local request and the message otherwise |
| ApiProperties.KeyShapeCheckedFirst | Website/Controllers/ApiController.cs:134-138 | a key that is not a GUID gets BadRequest from verify, push and delete whatever the users and catalog hold |
| ApiProperties.UnknownKeyIsForbidden | Website/Controllers/ApiController.cs:140-142 | a well-formed unknown key gets Forbidden, never BadRequest, from all three, before any package or artifact is examined |
| ApiProperties.VerifyWithoutIdIgnoresCatalog | Website/Controllers/ApiController.cs:144-155 | with an empty id the verify answer depends on neither the catalog nor the version |
| ApiProperties.VerifyAgreesWithDelete | Website/Controllers/ApiController.cs:144-153 | with an id, a key verifies iff a delete of the same id and version would pass its checks |
| ApiProperties.PushTwiceConflicts | Website/Controllers/ApiController.cs:193-199 | repeating a successful push gives Conflict |
| ApiProperties.PushThenDownload | Website/Controllers/ApiController.cs:202-209 | after a successful push, GetPackage for the pushed id and version serves that version's stored file, and the pusher's key verifies for it |
| ApiProperties.DeleteKeepsDownloads | Website/Controllers/ApiController.cs:225-233 | after a delete every download request is answered exactly as before, so the unlisted package is still served; the modelled lookup does not consult the listed flag |
| ApiProperties.DeleteIsIdempotent | Website/Controllers/ApiController.cs:225-233 | a second identical delete passes the same checks, picks the same package and changes nothing more |
| ApiProperties.ResolveIgnoresCdn | Website/Controllers/ApiController.cs:47-66 | useCdn changes only the delivery flag of a stored-file answer, never which package is chosen or whether a redirect happens |
| Gallery.FindRegistration | Website/Controllers/ApiController.cs:185 | the first registration whose id equals the pushed id ignoring case, or none when no id matches |
| Gallery.FindPackage | Website/Controllers/ApiController.cs:51 | a package of the id's registration that the version designates (latest stable, latest, or the version ignoring case), the first such; none exactly when there is no registration or no such package |
| Gallery.FindRegistrationUnique | Website/Controllers/ApiController.cs:185 | in a valid catalog the registration found for an id is the only one whose id equals it ignoring case |
| Gallery.AddPackageIsFound | Website/Controllers/ApiController.cs:202 | after CreatePackage, looking up the pushed id and version finds exactly the new record, owned by the pusher alone when the registration is new |
| Gallery.AddPackageKeepsValid | Website/Controllers/ApiController.cs:193-202 | creating a version new to its registration keeps ids unique, versions unique and at most one latest and one latest-stable package per registration |
| Gallery.AddPackageKeepsOthers | Website/Controllers/ApiController.cs:202 | CreatePackage overwrites nothing: other registrations are unchanged; the target keeps its id, owners, download count and every existing package except for latest flags it may lose, and gains exactly the new package |
| Gallery.UnlistOnlyUnlists | Website/Controllers/ApiController.cs:232 | MarkPackageUnlisted clears the listed flag of that package; nothing is removed and nothing else changes |
| Gallery.UnlistKeepsLookups | Website/Controllers/ApiController.cs:232 | unlisting changes the answer of no FindPackageByIdAndVersion call |
| Gallery.UnlistKeepsValid | Website/Controllers/ApiController.cs:232 | unlisting keeps the catalog invariant |
| Gallery.FirstIndex | Website/Controllers/ApiController.cs:116 | LINQ First: the index of an element satisfying the predicate with none before it, or none when no element does |
| Dependents.LatestVersion | Website/Controllers/ApiController.cs:93-98 | the version of a package of the source id flagged IsLatest; none exactly when no such package exists |
| Dependents.QueryResolvesSource | Website/Controllers/ApiController.cs:93-102 | with no source version and no latest package the query fails with NoLatestPackage; a given version is kept; a resolved one is a latest version of the id |
| Dependents.Candidates | Website/Controllers/ApiController.cs:108 | the in-order filter of the rows: a subsequence of them holding exactly the rows that are IsLatest and declare a dependency on the id |
| Dependents.SortByDownloadsCorrect | Website/Controllers/ApiController.cs:109 | the ranking is in descending registration download count and is a permutation of its input |
| Dependents.TopIsRankedCandidates | Website/Controllers/ApiController.cs:105-111 | each row a latest catalog package depending on the id, in descending download order; as many rows as candidates, capped at 20; every candidate when there are at most 20, and otherwise no candidate left out outranks the last row |
| Dependents.FirstDependency | Website/Controllers/ApiController.cs:116 | the first dependency of the package whose id equals the source id ignoring case: no earlier dependency is on that id |
| Dependents.Verdict | Website/Controllers/ApiController.cs:117 | a row is kept iff its spec is empty or parses to one the source version satisfies; it fails iff a non-empty spec does not parse |
| Dependents.KeptStopsAtFailure | Website/Controllers/ApiController.cs:114-121 | once a spec fails to parse the loop's result is that failure, whatever rows follow |
| Dependents.KeptFailsOnMalformedSpec | Website/Controllers/ApiController.cs:114-121 | the loop fails iff some row it visits has a malformed spec |
| Dependents.KeptIsSubsequence | Website/Controllers/ApiController.cs:114-121 | the loop only drops rows and never reorders them |
| Dependents.KeptExactlyAccepted | Website/Controllers/ApiController.cs:114-121 | the loop keeps a row iff that row's dependency admits the source version |
| Dependents.QuerySelection | Website/Controllers/ApiController.cs:105-121 | at most 20 dependents; each is a latest catalog package depending on the source id through a spec admitting the source version; every such package among the top 20 is listed, and with at most 20 candidates every such package of the catalog is listed |
| Dependents.QueryOrder | Website/Controllers/ApiController.cs:105-121 | the dependents are a subsequence of all candidates ranked by descending registration downloads, and they are in that order |
| Dependents.QueryFailsOnMalformedSpec | Website/Controllers/ApiController.cs:110-117 | the query fails on a spec exactly when one of the 20 best-ranked candidates has a malformed spec; specs further down are never parsed |
| Guids.ParseFormatD | Website/Controllers/ApiController.cs:134-135 | every key in the Guid.ToString() form is accepted and parsed back to the same GUID |
| Guids.ParseFormatN | Website/Controllers/ApiController.cs:134-135 | every key in the 32-digit form is accepted and parsed back to the same GUID |
| Guids.ParseFormatB | Website/Controllers/ApiController.cs:134-135 | every key in the braced form is accepted and parsed back to the same GUID |

## Left out

- `ReadPackageFromRequest` (request streams and ZIP parsing through NuGet's `ZipPackage`): the pushed package is an input value, and `None` stands for a stream that does not parse.
- `GetPackageCdn` and the public `GetPackage`: they only call `GetPackage` with a fixed `useCdn`, which is a parameter here.
- `GetNuGetExe`, `GetPackageIds`, `GetPackageVersions`, `PublishPackage`: they delegate to services or return an empty result.
- The file storage service and `CreateDownloadPackageActionResult`: serving the stored file is the `Download` answer. The refresh of `nuget.exe` is the boolean `refreshed`.
- The NuGet library (`SemanticVersion`, `VersionUtility.ParseVersionSpec`, `Satisfies`): versions and specs are abstract type parameters. Their total order is not represented, because no modelled decision compares two versions.
- `FindPackageByIdAndVersion` is not part of this model. The model assumes this behaviour: an empty version designates the first package flagged latest stable, or latest when prerelease versions are allowed; otherwise it designates the version equal ignoring case. Any fallback the service has when no package is flagged is not modelled. The two-argument calls in VerifyPackageKey and DeletePackage are taken to use the default allowPrerelease = true, so without a version they act on the package flagged latest. The listed flag is not consulted, so an unlisted latest package is still chosen when no version is given; `ApiProperties.DeleteKeepsDownloads` rests on this.
- The latest-flag recomputation inside `CreatePackage`: the created package's flags are an input. An existing package loses a flag the new package takes, which keeps at most one latest and one latest-stable package per registration.
- Database collation: the database-side id comparisons (registration lookup, lines 96 and 108) use the same case-insensitive equality as `OrdinalIgnoreCase`.
- `Text.EqualsIgnoreCase`: upper-cases ASCII letters only; the non-ASCII case mappings of `OrdinalIgnoreCase` are not modelled.
- `Guids.TryParse`: the `X` form and the legacy acceptance of `0x` prefixes or `+` signs inside the hyphenated form are not modelled, so the model rejects such keys.
- Response texts from the `Strings` resources: outcomes carry only the values formatted into them.
- The JSON wrapping of `GetDependents`: the result is one `DependentsOutput`, where the controller returns a one-element list of it.
- Download statistics: only the package id and version are recorded. The host address, the user agent and the download counters are not modelled.
- Exceptions thrown inside the services, output-cache attributes, dependency-injection lookups and MVC result types.
- Concurrency, and the atomicity of check-then-insert in the store.
