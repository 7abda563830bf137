/** The package API controller: the decisions of VerifyPackageKey,
    CreatePackageInternal (push), DeletePackage, GetPackage and
    GetDependents, and the error body of OnException. The controller's
    services are replaced by the state they keep: the registrations of the
    package service, the users of the user service keyed by API key, and the
    download statistics. */
module Api {
  import opened Wrappers
  import opened Text
  import Guids
  import opened Gallery
  import opened Dependents

  /** Constants.NuGetCommandLinePackageId: the package whose stable versions
      carry the nuget.exe the gallery serves. */
  const NuGetCommandLinePackageId: string := "NuGet.CommandLine"

  /** The action results of the guarded operations. */
  datatype Outcome =
    | Ok                                    // EmptyResult, 200
    | Created                               // 201
    | BadRequest(apiKey: string)            // 400, Strings.InvalidApiKey
    | Forbidden(action: string)             // 403, Strings.ApiKeyNotAuthorized
    | NotFound(id: string, version: string) // 404, Strings.PackageWithIdAndVersionNotFound
    | Conflict(id: string, version: string) // 409, Strings.PackageExistsAndCannotBeModified
    | ServerError                           // 500, an exception handled by OnException

  /** The HTTP status code each outcome is sent with. */
  function StatusCode(o: Outcome): int {
    match o
    case Ok => 200
    case Created => 201
    case BadRequest(_) => 400
    case Forbidden(_) => 403
    case NotFound(_, _) => 404
    case Conflict(_, _) => 409
    case ServerError => 500
  }

  /** How GetPackage answers. */
  datatype Delivery =
    | PackageNotFound(id: string, version: string)      // 404
    | Redirect(url: string)                             // to the external package URL
    | Download(id: string, version: string, useCdn: bool) // the stored file, from the CDN or not

  /** The key checks that open VerifyPackageKey, CreatePackageInternal and
      DeletePackage: the key must parse as a GUID, then name a user. */
  function Authenticate(users: map<Guids.Guid, User>, apiKey: string, action: string): (r: Result<User, Outcome>)
    ensures !Guids.IsWellFormed(apiKey) <==> r == Failure(BadRequest(apiKey))
    ensures r.Success? <==> Guids.IsWellFormed(apiKey) && Guids.TryParse(apiKey).value in users
    ensures r.Success? ==> r.value == users[Guids.TryParse(apiKey).value]
    ensures r.Failure? ==> r.error == BadRequest(apiKey) || r.error == Forbidden(action)
  {
    match Guids.TryParse(apiKey)
    case None => Failure(BadRequest(apiKey))
    case Some(key) => if key in users then Success(users[key]) else Failure(Forbidden(action))
  }

  /** VerifyPackageKey: is the key valid, and, when an id is given, may its
      user push the package that id and version designate? */
  function VerifyPackageKey(regs: seq<Registration>, users: map<Guids.Guid, User>, apiKey: string, id: string, version: string): (r: Outcome)
    ensures r.BadRequest? <==> !Guids.IsWellFormed(apiKey)
    ensures r.BadRequest? ==> r == BadRequest(apiKey)
    ensures id == "" ==> (r == Ok <==> Authenticate(users, apiKey, "push").Success?)
    ensures id != "" && Authenticate(users, apiKey, "push").Success? ==>
      match FindPackage(regs, id, version, true)
      case None => r == NotFound(id, version)
      case Some(ref) => r == if IsOwner(regs[ref.reg], Authenticate(users, apiKey, "push").value) then Ok else Forbidden("push")
    ensures r.Ok? || r.BadRequest? || r == Forbidden("push") || r == NotFound(id, version)
  {
    match Authenticate(users, apiKey, "push")
    case Failure(o) => o
    case Success(u) =>
      if id == "" then Ok
      else match FindPackage(regs, id, version, true)
        case None => NotFound(id, version)
        case Some(ref) => if IsOwner(regs[ref.reg], u) then Ok else Forbidden("push")
  }

  /** A push that passed every check: who pushes what. */
  datatype PushRequest = PushRequest(user: User, package: PushedPackage)

  /** The checks of CreatePackageInternal, in their order. The artifact is
      None when the uploaded stream is not a readable package, on which
      ReadPackageFromRequest throws. */
  function PushGuard(regs: seq<Registration>, users: map<Guids.Guid, User>, apiKey: string, artifact: Option<PushedPackage>): (r: Result<PushRequest, Outcome>)
    ensures !Guids.IsWellFormed(apiKey) ==> r == Failure(BadRequest(apiKey))
    ensures Authenticate(users, apiKey, "push").Failure? ==> r == Failure(Authenticate(users, apiKey, "push").error)
    ensures Authenticate(users, apiKey, "push").Success? && artifact.None? ==> r == Failure(ServerError)
    ensures Authenticate(users, apiKey, "push").Success? && artifact.Some? ==>
      var u, p := Authenticate(users, apiKey, "push").value, artifact.value;
      match FindRegistration(regs, p.id)
      case None => r == Success(PushRequest(u, p))
      case Some(i) =>
        r == if !IsOwner(regs[i], u) then Failure(Forbidden("push"))
             else if HasVersion(regs[i].packages, p.version) then Failure(Conflict(p.id, p.version))
             else Success(PushRequest(u, p))
    ensures r.Success? ==> artifact == Some(r.value.package) && IsNewVersion(regs, r.value.package)
  {
    match Authenticate(users, apiKey, "push")
    case Failure(o) => Failure(o)
    case Success(u) =>
      match artifact
      case None => Failure(ServerError)
      case Some(p) =>
        match FindRegistration(regs, p.id)
        case None => Success(PushRequest(u, p))
        case Some(i) =>
          if !IsOwner(regs[i], u) then Failure(Forbidden("push"))
          else if HasVersion(regs[i].packages, p.version) then Failure(Conflict(p.id, p.version))
          else Success(PushRequest(u, p))
  }

  /** The checks of DeletePackage, in their order; on success, the package to unlist. */
  function DeleteGuard(regs: seq<Registration>, users: map<Guids.Guid, User>, apiKey: string, id: string, version: string): (r: Result<PackageRef, Outcome>)
    ensures !Guids.IsWellFormed(apiKey) ==> r == Failure(BadRequest(apiKey))
    ensures Authenticate(users, apiKey, "delete").Failure? ==> r == Failure(Authenticate(users, apiKey, "delete").error)
    ensures Authenticate(users, apiKey, "delete").Success? ==>
      match FindPackage(regs, id, version, true)
      case None => r == Failure(NotFound(id, version))
      case Some(ref) => r == if IsOwner(regs[ref.reg], Authenticate(users, apiKey, "delete").value) then Success(ref) else Failure(Forbidden("delete"))
    ensures r.Success? ==> ValidRef(regs, r.value)
  {
    match Authenticate(users, apiKey, "delete")
    case Failure(o) => Failure(o)
    case Success(u) =>
      match FindPackage(regs, id, version, true)
      case None => Failure(NotFound(id, version))
      case Some(ref) => if IsOwner(regs[ref.reg], u) then Success(ref) else Failure(Forbidden("delete"))
  }

  /** GetPackage's choice: not found, a redirect to the package's external
      URL when it has one that is not blank, or the stored file. Prerelease
      versions are not chosen when no version is given. */
  function Resolve(regs: seq<Registration>, id: string, version: string, useCdn: bool): (d: Delivery)
    ensures d.PackageNotFound? <==> FindPackage(regs, id, version, false).None?
    ensures d.PackageNotFound? ==> d == PackageNotFound(id, version)
    ensures !d.PackageNotFound? ==>
      var ref := FindPackage(regs, id, version, false).value;
      var p := PackageAt(regs, ref);
      && (d.Redirect? <==> !IsNullOrWhiteSpace(p.externalPackageUrl))
      && (d.Redirect? ==> d.url == p.externalPackageUrl)
      && (d.Download? ==> d == Download(regs[ref.reg].id, p.version, useCdn))
  {
    match FindPackage(regs, id, version, false)
    case None => PackageNotFound(id, version)
    case Some(ref) =>
      var p := PackageAt(regs, ref);
      if !IsNullOrWhiteSpace(p.externalPackageUrl) then Redirect(p.externalPackageUrl)
      else Download(regs[ref.reg].id, p.version, useCdn)
  }

  datatype ExceptionInfo = ExceptionInfo(message: string, stackTrace: string)

  /** HttpStatusCodeWithBodyResult(status, description, body). */
  datatype ErrorResponse = ErrorResponse(status: int, description: string, body: string)

  /** OnException: every unhandled exception becomes a 500 whose description
      is the message; the body is the stack trace for a local request and
      the message otherwise. */
  function OnException(e: ExceptionInfo, isLocal: bool): (r: ErrorResponse)
    ensures r.status == StatusCode(ServerError) == 500 && r.description == e.message
    ensures isLocal ==> r.body == e.stackTrace
    ensures !isLocal ==> r.body == e.message
  {
    ErrorResponse(StatusCode(ServerError), e.message, if isLocal then e.stackTrace else e.message)
  }

  class ApiController {
    var registrations: seq<Registration>
    var users: map<Guids.Guid, User>
    var downloads: seq<DownloadEvent>

    ghost predicate Valid()
      reads this
    {
      CatalogValid(registrations)
    }

    constructor (registrations: seq<Registration>, users: map<Guids.Guid, User>)
      requires CatalogValid(registrations)
      ensures Valid()
      ensures this.registrations == registrations && this.users == users && downloads == []
    {
      this.registrations := registrations;
      this.users := users;
      downloads := [];
    }

    /** GetPackage(id, version, useCdn): records one download statistic for a
        package it finds, and none otherwise; the catalog is not changed. */
    method GetPackage(id: string, version: string, useCdn: bool) returns (d: Delivery)
      modifies this`downloads
      ensures d == Resolve(registrations, id, version, useCdn)
      ensures match FindPackage(registrations, id, version, false)
        case None => downloads == old(downloads)
        case Some(ref) => downloads == old(downloads) + [DownloadEvent(registrations[ref.reg].id, PackageAt(registrations, ref).version)]
    {
      var found := FindPackage(registrations, id, version, false);
      if found.None? {
        return PackageNotFound(id, version);
      }
      var ref := found.value;
      var package := PackageAt(registrations, ref);
      downloads := downloads + [DownloadEvent(registrations[ref.reg].id, package.version)];
      if !IsNullOrWhiteSpace(package.externalPackageUrl) {
        return Redirect(package.externalPackageUrl);
      }
      return Download(registrations[ref.reg].id, package.version, useCdn);
    }

    /** GetDependents(src): the dependents query. */
    method GetDependents<V, S>(src: DependentsInput, lib: VersionLibrary<V, S>) returns (r: Result<DependentsOutput, DependentsError>)
      ensures r == Query(registrations, src, lib)
    {
      var version := src.version;
      if version == "" {
        var latest := LatestVersion(registrations, src.id);
        if latest.None? {
          return Failure(NoLatestPackage(src.id));
        }
        version := latest.value;
      }
      var semVer := lib.parse(version);
      if semVer.None? {
        return Failure(MalformedVersion(version));
      }
      var dependents := Top(registrations, src.id);
      TopIsRankedCandidates(registrations, src.id);
      var list := FilterBySpec(dependents, src.id, semVer.value, lib);
      if list.Failure? {
        return Failure(list.error);
      }
      return Success(DependentsOutput(DependentsInput(src.id, version), list.value));
    }

    /** The foreach loop of GetDependents: keeps each row whose dependency on
        the id has an empty spec or one that v satisfies, and stops at the
        first spec that does not parse. */
    static method FilterBySpec<V, S>(dependents: seq<Entry>, id: string, v: V, lib: VersionLibrary<V, S>)
      returns (r: Result<seq<DependentsInput>, DependentsError>)
      requires forall k :: 0 <= k < |dependents| ==> DependsOn(dependents[k].pkg, id)
      ensures match Kept(dependents, id, v, lib)
        case Failure(err) => r == Failure(err)
        case Success(kept) => r == Success(Refs(kept))
    {
      var list: seq<DependentsInput> := [];
      ghost var kept: seq<Entry> := [];
      var i := 0;
      while i < |dependents|
        invariant 0 <= i <= |dependents|
        invariant Kept(dependents[..i], id, v, lib) == Success(kept)
        invariant list == Refs(kept)
      {
        var item := dependents[i];
        KeptStep(dependents, i, id, v, lib);
        var dependency := FirstDependency(item.pkg, id);
        if dependency.versionSpec != "" {
          var spec := lib.parseSpec(dependency.versionSpec);
          if spec.None? {
            KeptStopsAtFailure(dependents, i, id, v, lib);
            return Failure(MalformedVersionSpec(dependency.versionSpec));
          }
          if lib.satisfies(spec.value, v) {
            list := list + [Ref(item)];
            kept := kept + [item];
          }
        } else {
          list := list + [Ref(item)];
          kept := kept + [item];
        }
        i := i + 1;
      }
      assert dependents[..i] == dependents;
      return Success(list);
    }

    /** CreatePackageInternal(apiKey) for the uploaded artifact. The catalog
        decides the latest flags of the new package (flags); refreshed says
        whether the nuget.exe extracted from NuGet.CommandLine is updated. */
    method CreatePackageInternal(apiKey: string, artifact: Option<PushedPackage>, flags: LatestFlags) returns (outcome: Outcome, refreshed: bool)
      requires Valid()
      modifies this`registrations
      ensures Valid()
      ensures match PushGuard(old(registrations), users, apiKey, artifact)
        case Failure(o) => outcome == o && registrations == old(registrations) && !refreshed
        case Success(req) =>
          && outcome == Created
          && registrations == AddPackage(old(registrations), req.user, req.package, flags)
          && (refreshed <==> EqualsIgnoreCase(req.package.id, NuGetCommandLinePackageId) && NewPackage(req.package, flags).isLatestStable)
    {
      var guard := PushGuard(registrations, users, apiKey, artifact);
      if guard.Failure? {
        return guard.error, false;
      }
      var req := guard.value;
      AddPackageKeepsValid(registrations, req.user, req.package, flags);
      registrations := AddPackage(registrations, req.user, req.package, flags);
      var package := NewPackage(req.package, flags);
      refreshed := EqualsIgnoreCase(req.package.id, NuGetCommandLinePackageId) && package.isLatestStable;
      outcome := Created;
    }

    /** DeletePackage(apiKey, id, version): unlists the package when the key's
        user owns it. */
    method DeletePackage(apiKey: string, id: string, version: string) returns (outcome: Outcome)
      requires Valid()
      modifies this`registrations
      ensures Valid()
      ensures match DeleteGuard(old(registrations), users, apiKey, id, version)
        case Failure(o) => outcome == o && registrations == old(registrations)
        case Success(ref) => outcome == Ok && registrations == Unlist(old(registrations), ref)
    {
      var guard := DeleteGuard(registrations, users, apiKey, id, version);
      if guard.Failure? {
        return guard.error;
      }
      UnlistKeepsValid(registrations, guard.value);
      registrations := Unlist(registrations, guard.value);
      outcome := Ok;
    }
  }
}
