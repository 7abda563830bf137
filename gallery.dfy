/** The gallery's catalog as the controller sees it through its services:
    package registrations with their owners and versions, the lookups
    FindPackageRegistrationById and FindPackageByIdAndVersion, and the two
    catalog updates the controller requests, CreatePackage and
    MarkPackageUnlisted. */
module Gallery {
  import opened Wrappers
  import opened Text

  datatype User = User(username: string)

  /** A declared dependency; an empty versionSpec stands for a null or empty one. */
  datatype Dependency = Dependency(id: string, versionSpec: string)

  /** One published version of a registration. An empty externalPackageUrl
      stands for null. */
  datatype Package = Package(
    version: string,
    isLatest: bool,
    isLatestStable: bool,
    listed: bool,
    externalPackageUrl: string,
    dependencies: seq<Dependency>,
    downloadCount: nat)

  datatype Registration = Registration(
    id: string,
    owners: set<string>,
    packages: seq<Package>,
    downloadCount: nat)

  /** Where a package sits: its registration's index, then its own. */
  datatype PackageRef = PackageRef(reg: nat, pkg: nat)

  /** A download statistic: which package was downloaded. */
  datatype DownloadEvent = DownloadEvent(id: string, version: string)

  /** What the controller reads from an uploaded package file. */
  datatype PushedPackage = PushedPackage(id: string, version: string, dependencies: seq<Dependency>)

  /** The latest flags the catalog's version ordering assigns to a new package. */
  datatype LatestFlags = LatestFlags(isLatest: bool, isLatestStable: bool)

  /** Package ids are compared ignoring case. */
  predicate SameId(a: string, b: string) {
    EqualsIgnoreCase(a, b)
  }

  /** PackageRegistration.IsOwner. */
  predicate IsOwner(r: Registration, u: User) {
    u.username in r.owners
  }

  /** The index of the first element satisfying p (LINQ's First and FirstOrDefault). */
  function FirstIndex<T>(s: seq<T>, p: T -> bool): (r: Option<nat>)
    ensures r.Some? ==> r.value < |s| && p(s[r.value]) && forall j :: 0 <= j < r.value ==> !p(s[j])
    ensures r.None? ==> forall j :: 0 <= j < |s| ==> !p(s[j])
  {
    if s == [] then None
    else if p(s[0]) then Some(0)
    else match FirstIndex(s[1..], p)
      case None => None
      case Some(k) => Some(k + 1)
  }

  /** FindPackageRegistrationById. */
  function FindRegistration(regs: seq<Registration>, id: string): (r: Option<nat>)
    ensures r.Some? ==> r.value < |regs| && SameId(regs[r.value].id, id)
    ensures r.Some? ==> forall j :: 0 <= j < r.value ==> !SameId(regs[j].id, id)
    ensures r.None? ==> forall j :: 0 <= j < |regs| ==> !SameId(regs[j].id, id)
  {
    FirstIndex(regs, (g: Registration) => SameId(g.id, id))
  }

  /** Which package a (version, allowPrerelease) request designates: an empty
      version means the latest, or the latest stable one when prerelease
      versions are not allowed; otherwise the version compared ignoring case. */
  predicate Matches(p: Package, version: string, allowPrerelease: bool) {
    if version == "" then (if allowPrerelease then p.isLatest else p.isLatestStable)
    else EqualsIgnoreCase(p.version, version)
  }

  predicate ValidRef(regs: seq<Registration>, ref: PackageRef) {
    ref.reg < |regs| && ref.pkg < |regs[ref.reg].packages|
  }

  function PackageAt(regs: seq<Registration>, ref: PackageRef): Package
    requires ValidRef(regs, ref)
  {
    regs[ref.reg].packages[ref.pkg]
  }

  /** The index of the first package a (version, allowPrerelease) request designates. */
  function FindVersion(ps: seq<Package>, version: string, allowPrerelease: bool): (r: Option<nat>)
    ensures r.Some? ==> r.value < |ps| && Matches(ps[r.value], version, allowPrerelease)
    ensures r.Some? ==> forall k :: 0 <= k < r.value ==> !Matches(ps[k], version, allowPrerelease)
    ensures r.None? ==> forall k :: 0 <= k < |ps| ==> !Matches(ps[k], version, allowPrerelease)
  {
    FirstIndex(ps, (p: Package) => Matches(p, version, allowPrerelease))
  }

  /** FindPackageByIdAndVersion: the first package of the registration with
      this id that the version designates. */
  function FindPackage(regs: seq<Registration>, id: string, version: string, allowPrerelease: bool): (r: Option<PackageRef>)
    ensures r.Some? ==> ValidRef(regs, r.value) && FindRegistration(regs, id) == Some(r.value.reg)
    ensures r.Some? ==> FindVersion(regs[r.value.reg].packages, version, allowPrerelease) == Some(r.value.pkg)
    ensures r.None? <==> FindRegistration(regs, id).None?
                         || FindVersion(regs[FindRegistration(regs, id).value].packages, version, allowPrerelease).None?
  {
    match FindRegistration(regs, id)
    case None => None
    case Some(i) =>
      match FindVersion(regs[i].packages, version, allowPrerelease)
      case None => None
      case Some(k) => Some(PackageRef(i, k))
  }

  /** The duplicate check of a push: some package has this version, ignoring case. */
  predicate HasVersion(ps: seq<Package>, version: string) {
    exists k :: 0 <= k < |ps| && EqualsIgnoreCase(ps[k].version, version)
  }

  predicate AtMostOneLatest(ps: seq<Package>) {
    forall i, j :: 0 <= i < |ps| && 0 <= j < |ps| && ps[i].isLatest && ps[j].isLatest ==> i == j
  }

  predicate AtMostOneLatestStable(ps: seq<Package>) {
    forall i, j :: 0 <= i < |ps| && 0 <= j < |ps| && ps[i].isLatestStable && ps[j].isLatestStable ==> i == j
  }

  predicate DistinctVersions(ps: seq<Package>) {
    forall i, j :: 0 <= i < j < |ps| ==> !EqualsIgnoreCase(ps[i].version, ps[j].version)
  }

  predicate RegistrationValid(r: Registration) {
    DistinctVersions(r.packages) && AtMostOneLatest(r.packages) && AtMostOneLatestStable(r.packages)
  }

  /** The catalog invariant: one registration per id ignoring case; within a
      registration, one package per version ignoring case, and at most one
      package flagged latest and one flagged latest stable. */
  predicate CatalogValid(regs: seq<Registration>) {
    (forall i, j :: 0 <= i < j < |regs| ==> !SameId(regs[i].id, regs[j].id))
    && forall i :: 0 <= i < |regs| ==> RegistrationValid(regs[i])
  }

  /** The package record CreatePackage stores for a push: listed, hosted
      locally, with no downloads yet. */
  function NewPackage(p: PushedPackage, flags: LatestFlags): Package {
    Package(p.version, flags.isLatest, flags.isLatestStable, true, "", p.dependencies, 0)
  }

  /** The existing packages after a new one takes the latest flags it was given. */
  function YieldFlags(ps: seq<Package>, flags: LatestFlags): (r: seq<Package>)
    ensures |r| == |ps|
    ensures forall k :: 0 <= k < |ps| ==>
      r[k] == ps[k].(isLatest := ps[k].isLatest && !flags.isLatest,
                     isLatestStable := ps[k].isLatestStable && !flags.isLatestStable)
  {
    seq(|ps|, k requires 0 <= k < |ps| =>
      ps[k].(isLatest := ps[k].isLatest && !flags.isLatest,
             isLatestStable := ps[k].isLatestStable && !flags.isLatestStable))
  }

  /** CreatePackage: add the pushed version to the registration with its id,
      or to a new registration owned by the pusher alone. */
  function AddPackage(regs: seq<Registration>, u: User, p: PushedPackage, flags: LatestFlags): seq<Registration> {
    match FindRegistration(regs, p.id)
    case None => regs + [Registration(p.id, {u.username}, [NewPackage(p, flags)], 0)]
    case Some(i) => regs[i := regs[i].(packages := YieldFlags(regs[i].packages, flags) + [NewPackage(p, flags)])]
  }

  /** MarkPackageUnlisted. */
  function Unlist(regs: seq<Registration>, ref: PackageRef): seq<Registration>
    requires ValidRef(regs, ref)
  {
    var r := regs[ref.reg];
    regs[ref.reg := r.(packages := r.packages[ref.pkg := r.packages[ref.pkg].(listed := false)])]
  }

  // Lookups are determined by what they compare.

  lemma {:induction false} FindRegistrationByIds(regs: seq<Registration>, regs': seq<Registration>, id: string)
    requires |regs| == |regs'| && forall j :: 0 <= j < |regs| ==> regs[j].id == regs'[j].id
    ensures FindRegistration(regs, id) == FindRegistration(regs', id)
  {
    var a, b := FindRegistration(regs, id), FindRegistration(regs', id);
    if a.Some? && b.Some? {
      assert !(a.value < b.value) && !(b.value < a.value);
    }
  }

  lemma {:induction false} FindVersionByMatches(ps: seq<Package>, ps': seq<Package>, version: string, allowPrerelease: bool)
    requires |ps| == |ps'|
    requires forall k :: 0 <= k < |ps| ==> Matches(ps[k], version, allowPrerelease) == Matches(ps'[k], version, allowPrerelease)
    ensures FindVersion(ps, version, allowPrerelease) == FindVersion(ps', version, allowPrerelease)
  {
    var a, b := FindVersion(ps, version, allowPrerelease), FindVersion(ps', version, allowPrerelease);
    if a.Some? && b.Some? {
      assert !(a.value < b.value) && !(b.value < a.value);
    }
  }

  /** In a valid catalog the registration found for an id is the only one
      whose id equals it ignoring case. */
  lemma {:induction false} FindRegistrationUnique(regs: seq<Registration>, id: string, i: nat)
    requires CatalogValid(regs) && i < |regs|
    ensures FindRegistration(regs, id) == Some(i) <==> SameId(regs[i].id, id)
  {
    if SameId(regs[i].id, id) {
      forall j | 0 <= j < |regs| && j != i ensures !SameId(regs[j].id, id) {
        if j < i { assert !SameId(regs[j].id, regs[i].id); } else { assert !SameId(regs[i].id, regs[j].id); }
      }
    }
  }

  /** Where AddPackage puts the pushed version. */
  function PushedRef(regs: seq<Registration>, p: PushedPackage): PackageRef {
    match FindRegistration(regs, p.id)
    case None => PackageRef(|regs|, 0)
    case Some(i) => PackageRef(i, |regs[i].packages|)
  }

  /** The precondition CreatePackage is reached with: the pushed version is
      new in its registration. */
  predicate IsNewVersion(regs: seq<Registration>, p: PushedPackage) {
    FindRegistration(regs, p.id).None? || !HasVersion(regs[FindRegistration(regs, p.id).value].packages, p.version)
  }

  /** after is before up to its latest flags, which it may have cleared but not set. */
  predicate KeptUpToFlags(after: Package, before: Package) {
    && after.(isLatest := before.isLatest, isLatestStable := before.isLatestStable) == before
    && (after.isLatest ==> before.isLatest)
    && (after.isLatestStable ==> before.isLatestStable)
  }

  /** CreatePackage overwrites nothing: every other registration is
      unchanged, and the target keeps its id, owners, download count and
      existing packages (up to the latest flags they yield) and gains exactly
      the new package at the end. */
  lemma AddPackageKeepsOthers(regs: seq<Registration>, u: User, p: PushedPackage, flags: LatestFlags)
    ensures var r := AddPackage(regs, u, p, flags);
      var t := PushedRef(regs, p).reg;
      && |r| == (if t < |regs| then |regs| else |regs| + 1)
      && (forall j :: 0 <= j < |regs| && j != t ==> r[j] == regs[j])
      && (t < |regs| ==>
            && r[t].id == regs[t].id && r[t].owners == regs[t].owners
            && r[t].downloadCount == regs[t].downloadCount
            && |r[t].packages| == |regs[t].packages| + 1
            && (forall k :: 0 <= k < |regs[t].packages| ==> KeptUpToFlags(r[t].packages[k], regs[t].packages[k]))
            && r[t].packages[|regs[t].packages|] == NewPackage(p, flags))
  {
  }

  /** After CreatePackage the pushed id resolves to the registration that
      received the new version. */
  lemma {:induction false} AddPackageRegistration(regs: seq<Registration>, u: User, p: PushedPackage, flags: LatestFlags)
    ensures var r := AddPackage(regs, u, p, flags);
      && PushedRef(regs, p).reg < |r|
      && FindRegistration(r, p.id) == Some(PushedRef(regs, p).reg)
  {
    var r := AddPackage(regs, u, p, flags);
    match FindRegistration(regs, p.id)
    case None =>
      assert forall j :: 0 <= j < |regs| ==> r[j] == regs[j];
      assert SameId(r[|regs|].id, p.id);
      var f := FindRegistration(r, p.id);
      assert f.Some? && !(f.value < |regs|);
    case Some(i) =>
      FindRegistrationByIds(regs, r, p.id);
  }

  /** After CreatePackage the catalog holds the pushed version: looking it up
      by id and exact version finds exactly the stored record, owned by the
      pusher when the registration is new. */
  lemma {:induction false} AddPackageIsFound(regs: seq<Registration>, u: User, p: PushedPackage, flags: LatestFlags, allowPrerelease: bool)
    requires IsNewVersion(regs, p) && p.version != ""
    ensures var r := AddPackage(regs, u, p, flags);
      && FindPackage(r, p.id, p.version, allowPrerelease) == Some(PushedRef(regs, p))
      && PackageAt(r, PushedRef(regs, p)) == NewPackage(p, flags)
      && (FindRegistration(regs, p.id).None? ==> r[PushedRef(regs, p).reg].owners == {u.username})
  {
    var r := AddPackage(regs, u, p, flags);
    AddPackageRegistration(regs, u, p, flags);
    match FindRegistration(regs, p.id)
    case None =>
      assert r[|regs|].packages == [NewPackage(p, flags)];
      assert FindVersion(r[|regs|].packages, p.version, allowPrerelease) == Some(0);
    case Some(i) =>
      var ps := regs[i].packages;
      var ps' := r[i].packages;
      assert ps' == YieldFlags(ps, flags) + [NewPackage(p, flags)];
      forall k | 0 <= k < |ps| ensures !Matches(ps'[k], p.version, allowPrerelease) {
        assert ps'[k].version == ps[k].version;
      }
      assert Matches(ps'[|ps|], p.version, allowPrerelease);
      var f := FindVersion(ps', p.version, allowPrerelease);
      assert f == Some(|ps|) by {
        assert f.Some? && !(f.value < |ps|);
      }
  }

  /** CreatePackage keeps the catalog invariant when the version is new. */
  lemma {:induction false} AddPackageKeepsValid(regs: seq<Registration>, u: User, p: PushedPackage, flags: LatestFlags)
    requires CatalogValid(regs) && IsNewVersion(regs, p)
    ensures CatalogValid(AddPackage(regs, u, p, flags))
  {
    var r := AddPackage(regs, u, p, flags);
    match FindRegistration(regs, p.id)
    case None =>
      forall i, j | 0 <= i < j < |r| ensures !SameId(r[i].id, r[j].id) {
        if j == |regs| {
          assert r[i].id == regs[i].id && r[j].id == p.id;
          assert !SameId(regs[i].id, p.id);
        }
      }
      assert RegistrationValid(r[|regs|]);
    case Some(i) =>
      var ps := regs[i].packages;
      var ps' := r[i].packages;
      var n := NewPackage(p, flags);
      assert ps' == YieldFlags(ps, flags) + [n];
      assert DistinctVersions(ps') by {
        forall a, b | 0 <= a < b < |ps'| ensures !EqualsIgnoreCase(ps'[a].version, ps'[b].version) {
          if b == |ps| {
            assert ps'[a].version == ps[a].version && ps'[b].version == p.version;
            assert !EqualsIgnoreCase(ps[a].version, p.version);
          } else {
            assert ps'[a].version == ps[a].version && ps'[b].version == ps[b].version;
          }
        }
      }
      assert AtMostOneLatest(ps') by {
        forall a, b | 0 <= a < |ps'| && 0 <= b < |ps'| && ps'[a].isLatest && ps'[b].isLatest ensures a == b {
          if a < |ps| && b < |ps| { assert ps[a].isLatest && ps[b].isLatest; }
        }
      }
      assert AtMostOneLatestStable(ps') by {
        forall a, b | 0 <= a < |ps'| && 0 <= b < |ps'| && ps'[a].isLatestStable && ps'[b].isLatestStable ensures a == b {
          if a < |ps| && b < |ps| { assert ps[a].isLatestStable && ps[b].isLatestStable; }
        }
      }
      forall j | 0 <= j < |r| ensures RegistrationValid(r[j]) {
        if j != i { assert r[j] == regs[j]; }
      }
      forall a, b | 0 <= a < b < |r| ensures !SameId(r[a].id, r[b].id) {
        assert r[a].id == regs[a].id && r[b].id == regs[b].id;
      }
  }

  /** MarkPackageUnlisted changes the listed flag of that package and nothing
      else: no package is removed and no other package changes. */
  lemma UnlistOnlyUnlists(regs: seq<Registration>, ref: PackageRef)
    requires ValidRef(regs, ref)
    ensures var r := Unlist(regs, ref);
      && |r| == |regs|
      && (forall j :: 0 <= j < |regs| && j != ref.reg ==> r[j] == regs[j])
      && r[ref.reg].id == regs[ref.reg].id && r[ref.reg].owners == regs[ref.reg].owners
      && r[ref.reg].downloadCount == regs[ref.reg].downloadCount
      && |r[ref.reg].packages| == |regs[ref.reg].packages|
      && (forall k :: 0 <= k < |regs[ref.reg].packages| && k != ref.pkg ==> r[ref.reg].packages[k] == regs[ref.reg].packages[k])
      && PackageAt(r, ref) == PackageAt(regs, ref).(listed := false)
  {
  }

  /** An unlisted package stays where every lookup found it: unlisting
      changes the answer of no FindPackageByIdAndVersion call. */
  lemma {:induction false} UnlistKeepsLookups(regs: seq<Registration>, ref: PackageRef, id: string, version: string, allowPrerelease: bool)
    requires ValidRef(regs, ref)
    ensures FindPackage(Unlist(regs, ref), id, version, allowPrerelease) == FindPackage(regs, id, version, allowPrerelease)
  {
    var r := Unlist(regs, ref);
    FindRegistrationByIds(regs, r, id);
    forall i | 0 <= i < |regs|
      ensures FindVersion(r[i].packages, version, allowPrerelease) == FindVersion(regs[i].packages, version, allowPrerelease)
    {
      if i == ref.reg {
        FindVersionByMatches(r[i].packages, regs[i].packages, version, allowPrerelease);
      }
    }
  }

  /** Unlisting keeps the catalog invariant. */
  lemma {:induction false} UnlistKeepsValid(regs: seq<Registration>, ref: PackageRef)
    requires CatalogValid(regs) && ValidRef(regs, ref)
    ensures CatalogValid(Unlist(regs, ref))
  {
    var r := Unlist(regs, ref);
    var ps, ps' := regs[ref.reg].packages, r[ref.reg].packages;
    assert forall k :: 0 <= k < |ps| ==>
      ps'[k].version == ps[k].version && ps'[k].isLatest == ps[k].isLatest && ps'[k].isLatestStable == ps[k].isLatestStable;
    assert RegistrationValid(r[ref.reg]);
    forall a, b | 0 <= a < b < |r| ensures !SameId(r[a].id, r[b].id) {
      assert r[a].id == regs[a].id && r[b].id == regs[b].id;
    }
  }
}
