/** Properties that relate the controller's operations to each other and to
    the catalog they change. */
module ApiProperties {
  import opened Wrappers
  import opened Text
  import Guids
  import opened Gallery
  import opened Api

  /** A key that is not a GUID is refused with BadRequest by every guarded
      operation, whatever the users and the catalog hold: the shape check
      comes before any lookup. */
  lemma KeyShapeCheckedFirst(regs: seq<Registration>, users: map<Guids.Guid, User>, apiKey: string,
                             id: string, version: string, artifact: Option<PushedPackage>)
    requires !Guids.IsWellFormed(apiKey)
    ensures VerifyPackageKey(regs, users, apiKey, id, version) == BadRequest(apiKey)
    ensures PushGuard(regs, users, apiKey, artifact) == Failure(BadRequest(apiKey))
    ensures DeleteGuard(regs, users, apiKey, id, version) == Failure(BadRequest(apiKey))
  {
  }

  /** A well-formed key that names no user is refused with Forbidden, never
      BadRequest, before the package or the artifact is looked at. */
  lemma UnknownKeyIsForbidden(regs: seq<Registration>, users: map<Guids.Guid, User>, apiKey: string,
                              id: string, version: string, artifact: Option<PushedPackage>)
    requires Guids.IsWellFormed(apiKey) && Guids.TryParse(apiKey).value !in users
    ensures VerifyPackageKey(regs, users, apiKey, id, version) == Forbidden("push")
    ensures PushGuard(regs, users, apiKey, artifact) == Failure(Forbidden("push"))
    ensures DeleteGuard(regs, users, apiKey, id, version) == Failure(Forbidden("delete"))
  {
  }

  /** Without an id, VerifyPackageKey checks the key alone: its answer does
      not depend on the catalog or on the version. */
  lemma VerifyWithoutIdIgnoresCatalog(regs: seq<Registration>, regs': seq<Registration>, users: map<Guids.Guid, User>,
                                      apiKey: string, version: string, version': string)
    ensures VerifyPackageKey(regs, users, apiKey, "", version) == VerifyPackageKey(regs', users, apiKey, "", version')
  {
  }

  /** With an id, a key verifies exactly when DeletePackage would accept it
      for that id and version: both find the package the same way and ask
      the same ownership question. */
  lemma VerifyAgreesWithDelete(regs: seq<Registration>, users: map<Guids.Guid, User>, apiKey: string, id: string, version: string)
    requires id != ""
    ensures VerifyPackageKey(regs, users, apiKey, id, version) == Ok <==> DeleteGuard(regs, users, apiKey, id, version).Success?
  {
  }

  /** A push that succeeds is refused with Conflict when repeated: the pusher
      owns the registration afterwards and the version is now taken. */
  lemma {:induction false} PushTwiceConflicts(regs: seq<Registration>, users: map<Guids.Guid, User>, apiKey: string,
                                              p: PushedPackage, flags: LatestFlags)
    requires PushGuard(regs, users, apiKey, Some(p)).Success?
    ensures var u := PushGuard(regs, users, apiKey, Some(p)).value.user;
      PushGuard(AddPackage(regs, u, p, flags), users, apiKey, Some(p)) == Failure(Conflict(p.id, p.version))
  {
    var u := PushGuard(regs, users, apiKey, Some(p)).value.user;
    var r := AddPackage(regs, u, p, flags);
    var ref := PushedRef(regs, p);
    AddPackageRegistration(regs, u, p, flags);
    assert FindRegistration(r, p.id) == Some(ref.reg);
    assert IsOwner(r[ref.reg], u);
    var last := |r[ref.reg].packages| - 1;
    assert r[ref.reg].packages[last] == NewPackage(p, flags);
    assert HasVersion(r[ref.reg].packages, p.version) by {
      assert EqualsIgnoreCase(r[ref.reg].packages[last].version, p.version);
    }
  }

  /** After a successful push, a download request for the pushed id and
      version serves the stored file of exactly that version, and the
      pusher's key verifies for it. */
  lemma {:induction false} PushThenDownload(regs: seq<Registration>, users: map<Guids.Guid, User>, apiKey: string,
                                            p: PushedPackage, flags: LatestFlags, useCdn: bool)
    requires PushGuard(regs, users, apiKey, Some(p)).Success? && p.version != ""
    ensures var u := PushGuard(regs, users, apiKey, Some(p)).value.user;
      var r := AddPackage(regs, u, p, flags);
      var regId := match FindRegistration(regs, p.id) case None => p.id case Some(i) => regs[i].id;
      && Resolve(r, p.id, p.version, useCdn) == Download(regId, p.version, useCdn)
      && VerifyPackageKey(r, users, apiKey, p.id, p.version) == Ok
  {
    var u := PushGuard(regs, users, apiKey, Some(p)).value.user;
    var r := AddPackage(regs, u, p, flags);
    AddPackageIsFound(regs, u, p, flags, false);
    AddPackageIsFound(regs, u, p, flags, true);
    AddPackageRegistration(regs, u, p, flags);
    assert IsOwner(r[PushedRef(regs, p).reg], u);
  }

  /** Deleting only unlists: every download request is answered after a
      delete exactly as before it, so an unlisted package is still served
      by its exact version. */
  lemma {:induction false} DeleteKeepsDownloads(regs: seq<Registration>, users: map<Guids.Guid, User>, apiKey: string,
                                                id: string, version: string, id': string, version': string, useCdn: bool)
    requires DeleteGuard(regs, users, apiKey, id, version).Success?
    ensures var ref := DeleteGuard(regs, users, apiKey, id, version).value;
      Resolve(Unlist(regs, ref), id', version', useCdn) == Resolve(regs, id', version', useCdn)
  {
    var ref := DeleteGuard(regs, users, apiKey, id, version).value;
    UnlistKeepsLookups(regs, ref, id', version', false);
    UnlistOnlyUnlists(regs, ref);
  }

  /** Deleting twice is deleting once: the second request passes the same
      checks, designates the same package and leaves the catalog as it is. */
  lemma {:induction false} DeleteIsIdempotent(regs: seq<Registration>, users: map<Guids.Guid, User>, apiKey: string, id: string, version: string)
    requires DeleteGuard(regs, users, apiKey, id, version).Success?
    ensures var ref := DeleteGuard(regs, users, apiKey, id, version).value;
      && DeleteGuard(Unlist(regs, ref), users, apiKey, id, version) == Success(ref)
      && Unlist(Unlist(regs, ref), ref) == Unlist(regs, ref)
  {
    var ref := DeleteGuard(regs, users, apiKey, id, version).value;
    UnlistKeepsLookups(regs, ref, id, version, true);
    UnlistOnlyUnlists(regs, ref);
    var once := Unlist(regs, ref);
    var twice := Unlist(once, ref);
    assert twice[ref.reg].packages == once[ref.reg].packages;
    assert twice[ref.reg] == once[ref.reg];
  }

  /** useCdn only chooses how the stored file is served, never which
      package is served or whether a redirect is made. */
  lemma ResolveIgnoresCdn(regs: seq<Registration>, id: string, version: string)
    ensures var viaCdn, direct := Resolve(regs, id, version, true), Resolve(regs, id, version, false);
      && (viaCdn.Download? <==> direct.Download?)
      && (viaCdn.Download? ==> viaCdn == direct.(useCdn := true))
      && (!viaCdn.Download? ==> viaCdn == direct)
  {
  }
}
