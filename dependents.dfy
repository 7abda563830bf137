/** The dependents query of GetDependents: which latest packages depend on a
    given id, ranked by their registration's download count, capped at 20,
    and kept when their dependency's version spec admits the source version.
    Version parsing, spec parsing and spec satisfaction belong to the NuGet
    library; they are parameters here. */
module Dependents {
  import opened Wrappers
  import opened Text
  import opened Gallery

  /** SemanticVersion.Parse, VersionUtility.ParseVersionSpec and
      IVersionSpec.Satisfies; None stands for the exception a parse throws. */
  datatype VersionLibrary<!V, !S> = VersionLibrary(
    parse: string -> Option<V>,
    parseSpec: string -> Option<S>,
    satisfies: (S, V) -> bool)

  /** A row of the package table, with the registration it belongs to. */
  datatype Entry = Entry(regId: string, regDownloads: nat, pkg: Package)

  /** An (id, version) pair, as the query receives it and as it lists results. */
  datatype DependentsInput = DependentsInput(id: string, version: string)

  datatype DependentsOutput = DependentsOutput(src: DependentsInput, dependents: seq<DependentsInput>)

  /** The exceptions the query can raise, each of which becomes a 500 response. */
  datatype DependentsError =
    | NoLatestPackage(id: string)        // First finds no latest package of the id
    | MalformedVersion(version: string)  // SemanticVersion.Parse throws
    | MalformedVersionSpec(spec: string) // VersionUtility.ParseVersionSpec throws

  const MaxDependents: nat := 20

  function EntriesOf(r: Registration): (es: seq<Entry>)
    ensures |es| == |r.packages|
    ensures forall k :: 0 <= k < |es| ==> es[k] == Entry(r.id, r.downloadCount, r.packages[k])
  {
    seq(|r.packages|, k requires 0 <= k < |r.packages| => Entry(r.id, r.downloadCount, r.packages[k]))
  }

  /** The package table in catalog order. */
  function Entries(regs: seq<Registration>): seq<Entry> {
    if regs == [] then [] else EntriesOf(regs[0]) + Entries(regs[1..])
  }

  /** Every row is a package of the catalog, listed with its own registration. */
  lemma {:induction false} EntriesAreCatalogPackages(regs: seq<Registration>, e: Entry)
    requires e in Entries(regs)
    ensures exists ref :: ValidRef(regs, ref) && e == Entry(regs[ref.reg].id, regs[ref.reg].downloadCount, PackageAt(regs, ref))
  {
    if e in EntriesOf(regs[0]) {
      var k :| 0 <= k < |regs[0].packages| && EntriesOf(regs[0])[k] == e;
      assert ValidRef(regs, PackageRef(0, k));
    } else {
      EntriesAreCatalogPackages(regs[1..], e);
      var ref :| ValidRef(regs[1..], ref) && e == Entry(regs[1..][ref.reg].id, regs[1..][ref.reg].downloadCount, PackageAt(regs[1..], ref));
      assert ValidRef(regs, PackageRef(ref.reg + 1, ref.pkg));
    }
  }

  /** The version of the first package of the id flagged IsLatest, which the
      query uses when no source version is given. */
  function LatestVersion(regs: seq<Registration>, id: string): (r: Option<string>)
    ensures r.Some? ==> exists e :: e in Entries(regs) && SameId(e.regId, id) && e.pkg.isLatest && e.pkg.version == r.value
    ensures r.None? ==> forall e :: e in Entries(regs) ==> !(SameId(e.regId, id) && e.pkg.isLatest)
  {
    var es := Entries(regs);
    match FirstIndex(es, (e: Entry) => SameId(e.regId, id) && e.pkg.isLatest)
    case None => None
    case Some(k) => Some(es[k].pkg.version)
  }

  /** The source the query works for: the given version, or the latest. */
  function SourceVersion(regs: seq<Registration>, src: DependentsInput): Option<string> {
    if src.version == "" then LatestVersion(regs, src.id) else Some(src.version)
  }

  /** Whether a dependency is on the id, ignoring case. */
  function OnId(id: string): Dependency -> bool {
    (d: Dependency) => SameId(d.id, id)
  }

  /** The package declares a dependency on the id. */
  predicate DependsOn(p: Package, id: string) {
    FirstIndex(p.dependencies, OnId(id)).Some?
  }

  /** A row the query considers: a latest package declaring a dependency on the id. */
  predicate IsCandidate(e: Entry, id: string) {
    e.pkg.isLatest && DependsOn(e.pkg, id)
  }

  /** The rows of es that are candidates, in order. */
  function Candidates(es: seq<Entry>, id: string): (r: seq<Entry>)
    ensures forall e :: e in r <==> e in es && IsCandidate(e, id)
    ensures IsSubsequence(r, es)
    decreases |es|
  {
    if es == [] then []
    else
      var init, last := es[..|es| - 1], es[|es| - 1];
      var kept := Candidates(init, id);
      if IsCandidate(last, id) then
        assert (kept + [last])[..|kept|] == kept;
        kept + [last]
      else kept
  }

  predicate SortedByDownloads(es: seq<Entry>) {
    forall i, j :: 0 <= i < j < |es| ==> es[i].regDownloads >= es[j].regDownloads
  }

  /** Inserts e before the first row with fewer registration downloads. */
  function Insert(e: Entry, es: seq<Entry>): seq<Entry> {
    if es == [] || e.regDownloads >= es[0].regDownloads then [e] + es
    else [es[0]] + Insert(e, es[1..])
  }

  /** OrderByDescending(p => p.PackageRegistration.DownloadCount). */
  function SortByDownloads(es: seq<Entry>): seq<Entry> {
    if es == [] then [] else Insert(es[0], SortByDownloads(es[1..]))
  }

  lemma {:induction false} InsertPermutes(e: Entry, es: seq<Entry>)
    ensures multiset(Insert(e, es)) == multiset(es) + multiset{e}
  {
    if es == [] || e.regDownloads >= es[0].regDownloads {
    } else {
      InsertPermutes(e, es[1..]);
      assert es == [es[0]] + es[1..];
    }
  }

  /** Every row of Insert(e, es) is e or a row of es. */
  lemma {:induction false} InsertMembers(e: Entry, es: seq<Entry>)
    ensures forall x :: x in Insert(e, es) ==> x == e || x in es
  {
    if es != [] && e.regDownloads < es[0].regDownloads {
      InsertMembers(e, es[1..]);
    }
  }

  /** A row ranking no lower than every row of a sorted list can head it. */
  lemma SortedCons(x: Entry, rest: seq<Entry>)
    requires SortedByDownloads(rest)
    requires forall y :: y in rest ==> x.regDownloads >= y.regDownloads
    ensures SortedByDownloads([x] + rest)
  {
    var r := [x] + rest;
    forall i, j | 0 <= i < j < |r| ensures r[i].regDownloads >= r[j].regDownloads {
      assert r[j] == rest[j-1];
      if i > 0 { assert r[i] == rest[i-1]; }
    }
  }

  lemma {:induction false} InsertSorted(e: Entry, es: seq<Entry>)
    requires SortedByDownloads(es)
    ensures SortedByDownloads(Insert(e, es))
  {
    if es == [] || e.regDownloads >= es[0].regDownloads {
      SortedCons(e, es);
    } else {
      assert SortedByDownloads(es[1..]) by {
        forall i, j | 0 <= i < j < |es| - 1 ensures es[1..][i].regDownloads >= es[1..][j].regDownloads {
          assert es[1..][i] == es[i+1] && es[1..][j] == es[j+1];
        }
      }
      InsertSorted(e, es[1..]);
      InsertMembers(e, es[1..]);
      forall y | y in Insert(e, es[1..]) ensures es[0].regDownloads >= y.regDownloads {
        if y != e {
          var k :| 1 <= k < |es| && es[k] == y;
        }
      }
      SortedCons(es[0], Insert(e, es[1..]));
    }
  }

  /** The ranking is sorted by descending registration downloads and is a
      permutation of the rows it ranks. */
  lemma {:induction false} SortByDownloadsCorrect(es: seq<Entry>)
    ensures SortedByDownloads(SortByDownloads(es))
    ensures multiset(SortByDownloads(es)) == multiset(es)
  {
    if es != [] {
      SortByDownloadsCorrect(es[1..]);
      InsertSorted(es[0], SortByDownloads(es[1..]));
      InsertPermutes(es[0], SortByDownloads(es[1..]));
      assert es == [es[0]] + es[1..];
    }
  }

  /** Take(20). */
  function Take(es: seq<Entry>, n: nat): (r: seq<Entry>)
    ensures |r| == if |es| < n then |es| else n
    ensures r == es[..|r|]
  {
    if |es| <= n then es else es[..n]
  }

  /** The rows the database query returns: candidates ranked by registration
      downloads, at most 20 of them. */
  function Top(regs: seq<Registration>, id: string): seq<Entry> {
    Take(SortByDownloads(Candidates(Entries(regs), id)), MaxDependents)
  }

  /** What the database query returns: at most 20 rows, each a latest package
      of the catalog depending on the id, in descending download order, and
      nothing left out that outranks the last row returned. */
  lemma {:induction false} TopIsRankedCandidates(regs: seq<Registration>, id: string)
    ensures var top := Top(regs, id);
      && |top| <= MaxDependents
      && (forall k :: 0 <= k < |top| ==> top[k] in Entries(regs) && IsCandidate(top[k], id))
      && SortedByDownloads(top)
      && |top| == (if |Candidates(Entries(regs), id)| < MaxDependents then |Candidates(Entries(regs), id)| else MaxDependents)
      && (|Candidates(Entries(regs), id)| <= MaxDependents ==> forall e :: e in Candidates(Entries(regs), id) ==> e in top)
      && (|top| == MaxDependents ==> forall e :: e in Candidates(Entries(regs), id) && e.regDownloads > top[MaxDependents - 1].regDownloads ==> e in top)
  {
    var cs := Candidates(Entries(regs), id);
    var sorted := SortByDownloads(cs);
    var top := Top(regs, id);
    SortByDownloadsCorrect(cs);
    assert |sorted| == |cs| by { assert |multiset(sorted)| == |multiset(cs)|; }
    assert forall e :: e in sorted <==> e in cs by {
      forall e ensures e in sorted <==> e in cs {
        assert e in sorted <==> e in multiset(sorted);
      }
    }
    PrefixOfRanking(sorted, MaxDependents);
    forall k | 0 <= k < |top| ensures top[k] in Entries(regs) && IsCandidate(top[k], id) {
      assert top[k] in sorted;
      assert top[k] in cs;
    }
    if |cs| <= MaxDependents {
      assert top == sorted;
    }
  }

  /** The first n rows of a ranking are ranked too, and every row left out
      ranks no higher than the last one kept. */
  lemma PrefixOfRanking(sorted: seq<Entry>, n: nat)
    requires SortedByDownloads(sorted)
    ensures var top := Take(sorted, n);
      && SortedByDownloads(top)
      && (forall k :: 0 <= k < |top| ==> top[k] in sorted)
      && (0 < n == |top| ==> forall e :: e in sorted && e.regDownloads > top[n - 1].regDownloads ==> e in top)
  {
    var top := Take(sorted, n);
    forall k | 0 <= k < |top| ensures top[k] in sorted {
      assert top[k] == sorted[k];
    }
    if 0 < n == |top| {
      forall e | e in sorted && e.regDownloads > top[n - 1].regDownloads ensures e in top {
        var k :| 0 <= k < |sorted| && sorted[k] == e;
        assert top[k] == e;
      }
    }
  }

  /** No dependency before position k is on the id. */
  predicate NoneOnIdBefore(ds: seq<Dependency>, k: nat, id: string) {
    forall j :: 0 <= j < k && j < |ds| ==> !SameId(ds[j].id, id)
  }

  /** The dependency the loop inspects: the first one on the id, ignoring case. */
  function FirstDependency(p: Package, id: string): (d: Dependency)
    requires DependsOn(p, id)
    ensures d in p.dependencies && SameId(d.id, id)
    ensures exists k :: 0 <= k < |p.dependencies| && d == p.dependencies[k] && NoneOnIdBefore(p.dependencies, k, id)
  {
    p.dependencies[FirstIndex(p.dependencies, OnId(id)).value]
  }

  /** The row's dependency on the id admits v: its spec is empty, or parses
      to a spec that v satisfies. */
  predicate Admits<V, S>(e: Entry, id: string, v: V, lib: VersionLibrary<V, S>)
    requires DependsOn(e.pkg, id)
  {
    var spec := FirstDependency(e.pkg, id).versionSpec;
    spec == "" || (lib.parseSpec(spec).Some? && lib.satisfies(lib.parseSpec(spec).value, v))
  }

  /** Whether the loop keeps a row: it is kept iff its dependency admits v,
      and a non-empty spec that does not parse raises MalformedVersionSpec. */
  function Verdict<V, S>(e: Entry, id: string, v: V, lib: VersionLibrary<V, S>): (r: Result<bool, DependentsError>)
    requires DependsOn(e.pkg, id)
    ensures r == Success(true) <==> Admits(e, id, v, lib)
    ensures r.Failure? <==> var spec := FirstDependency(e.pkg, id).versionSpec; spec != "" && lib.parseSpec(spec).None?
    ensures r.Failure? ==> r.error == MalformedVersionSpec(FirstDependency(e.pkg, id).versionSpec)
  {
    var spec := FirstDependency(e.pkg, id).versionSpec;
    if spec == "" then Success(true)
    else match lib.parseSpec(spec)
      case None => Failure(MalformedVersionSpec(spec))
      case Some(s) => Success(lib.satisfies(s, v))
  }

  /** The rows of es the loop keeps, in order, or the first spec parse
      failure in es. */
  function Kept<V, S>(es: seq<Entry>, id: string, v: V, lib: VersionLibrary<V, S>): Result<seq<Entry>, DependentsError>
    requires forall k :: 0 <= k < |es| ==> DependsOn(es[k].pkg, id)
    decreases |es|
  {
    if es == [] then Success([])
    else
      var last := es[|es| - 1];
      match Kept(es[..|es| - 1], id, v, lib)
      case Failure(err) => Failure(err)
      case Success(kept) =>
        match Verdict(last, id, v, lib)
        case Failure(err) => Failure(err)
        case Success(keep) => Success(if keep then kept + [last] else kept)
  }

  /** One more row for the loop: the verdict on es[i] extends the result on es[..i]. */
  lemma KeptStep<V, S>(es: seq<Entry>, i: nat, id: string, v: V, lib: VersionLibrary<V, S>)
    requires forall k :: 0 <= k < |es| ==> DependsOn(es[k].pkg, id)
    requires i < |es|
    ensures Kept(es[..i + 1], id, v, lib) ==
      match Kept(es[..i], id, v, lib)
      case Failure(err) => Failure(err)
      case Success(kept) =>
        match Verdict(es[i], id, v, lib)
        case Failure(err) => Failure(err)
        case Success(keep) => Success(if keep then kept + [es[i]] else kept)
  {
    assert es[..i + 1][..i] == es[..i];
    assert es[..i + 1][i] == es[i];
  }

  /** Once the loop fails on a row it fails on every longer input. */
  lemma {:induction false} KeptStopsAtFailure<V, S>(es: seq<Entry>, i: nat, id: string, v: V, lib: VersionLibrary<V, S>)
    requires forall k :: 0 <= k < |es| ==> DependsOn(es[k].pkg, id)
    requires i < |es| && Kept(es[..i + 1], id, v, lib).Failure?
    ensures Kept(es, id, v, lib) == Kept(es[..i + 1], id, v, lib)
    decreases |es| - i
  {
    if i + 1 < |es| {
      assert es[..|es| - 1][..i + 1] == es[..i + 1];
      KeptStopsAtFailure(es[..|es| - 1], i, id, v, lib);
    } else {
      assert es[..i + 1] == es;
    }
  }

  /** a is a subsequence of b: a can be obtained from b by dropping elements. */
  predicate IsSubsequence<T(==)>(a: seq<T>, b: seq<T>)
    decreases |b|
  {
    if b == [] then a == []
    else (a != [] && a[|a| - 1] == b[|b| - 1] && IsSubsequence(a[..|a| - 1], b[..|b| - 1]))
         || IsSubsequence(a, b[..|b| - 1])
  }

  /** A spec that does not parse makes the loop fail. */
  lemma {:induction false} KeptFailsAt<V, S>(es: seq<Entry>, k: nat, id: string, v: V, lib: VersionLibrary<V, S>)
    requires forall j :: 0 <= j < |es| ==> DependsOn(es[j].pkg, id)
    requires k < |es| && Verdict(es[k], id, v, lib).Failure?
    ensures Kept(es, id, v, lib).Failure?
    decreases |es|
  {
    var n := |es| - 1;
    var init := es[..n];
    KeptStep(es, n, id, v, lib);
    assert es[..n + 1] == es;
    if k < n {
      assert forall j :: 0 <= j < n ==> init[j] == es[j];
      KeptFailsAt(init, k, id, v, lib);
      assert Kept(init, id, v, lib).Failure?;
    } else {
      assert Verdict(es[n], id, v, lib).Failure?;
    }
  }

  /** When the loop fails, some spec in its input did not parse. */
  lemma {:induction false} KeptFailureHasWitness<V, S>(es: seq<Entry>, id: string, v: V, lib: VersionLibrary<V, S>)
    requires forall j :: 0 <= j < |es| ==> DependsOn(es[j].pkg, id)
    requires Kept(es, id, v, lib).Failure?
    ensures exists k :: 0 <= k < |es| && Verdict(es[k], id, v, lib).Failure?
    decreases |es|
  {
    var n := |es| - 1;
    KeptStep(es, n, id, v, lib);
    assert es[..n + 1] == es;
    if Kept(es[..n], id, v, lib).Failure? {
      KeptFailureHasWitness(es[..n], id, v, lib);
      var k :| 0 <= k < n && Verdict(es[..n][k], id, v, lib).Failure?;
      assert es[..n][k] == es[k];
    } else {
      assert Verdict(es[n], id, v, lib).Failure?;
    }
  }

  /** The loop fails exactly when some spec in its input does not parse. */
  lemma KeptFailsOnMalformedSpec<V, S>(es: seq<Entry>, id: string, v: V, lib: VersionLibrary<V, S>)
    requires forall k :: 0 <= k < |es| ==> DependsOn(es[k].pkg, id)
    ensures Kept(es, id, v, lib).Failure? <==> exists k :: 0 <= k < |es| && Verdict(es[k], id, v, lib).Failure?
  {
    if Kept(es, id, v, lib).Failure? {
      KeptFailureHasWitness(es, id, v, lib);
    }
    if k :| 0 <= k < |es| && Verdict(es[k], id, v, lib).Failure? {
      KeptFailsAt(es, k, id, v, lib);
    }
  }

  /** The loop only filters: what it keeps is a subsequence of its input. */
  lemma {:induction false} KeptIsSubsequence<V, S>(es: seq<Entry>, id: string, v: V, lib: VersionLibrary<V, S>)
    requires forall k :: 0 <= k < |es| ==> DependsOn(es[k].pkg, id)
    requires Kept(es, id, v, lib).Success?
    ensures IsSubsequence(Kept(es, id, v, lib).value, es)
    decreases |es|
  {
    if es != [] {
      var init := es[..|es| - 1];
      KeptIsSubsequence(init, id, v, lib);
      var kept := Kept(es, id, v, lib).value;
      if kept != Kept(init, id, v, lib).value {
        assert kept[..|kept| - 1] == Kept(init, id, v, lib).value;
      }
    }
  }

  /** The loop keeps exactly the rows whose spec is empty or admits v. */
  lemma {:induction false} KeptExactlyAccepted<V, S>(es: seq<Entry>, id: string, v: V, lib: VersionLibrary<V, S>)
    requires forall k :: 0 <= k < |es| ==> DependsOn(es[k].pkg, id)
    requires Kept(es, id, v, lib).Success?
    ensures forall e :: e in Kept(es, id, v, lib).value ==> e in es
    ensures forall k :: 0 <= k < |es| ==> (es[k] in Kept(es, id, v, lib).value <==> Verdict(es[k], id, v, lib) == Success(true))
    decreases |es|
  {
    if es != [] {
      var n := |es| - 1;
      var init := es[..n];
      KeptStep(es, n, id, v, lib);
      assert es[..n + 1] == es;
      assert forall j :: 0 <= j < n ==> init[j] == es[j];
      KeptExactlyAccepted(init, id, v, lib);
      var accept := (e: Entry) => DependsOn(e.pkg, id) && Verdict(e, id, v, lib) == Success(true);
      var keptInit := Kept(init, id, v, lib).value;
      assert forall k :: 0 <= k < n ==> (es[k] in keptInit <==> accept(es[k]));
      FilterStep(es, keptInit, Kept(es, id, v, lib).value, accept);
    }
  }

  /** One step of an in-order filter: if keptInit is exactly the accepted
      elements of all but the last element of es, then keeping the last one
      iff it is accepted gives exactly the accepted elements of es. */
  lemma FilterStep<T>(es: seq<T>, keptInit: seq<T>, kept: seq<T>, accept: T -> bool)
    requires es != []
    requires forall e :: e in keptInit ==> e in es[..|es| - 1]
    requires forall k :: 0 <= k < |es| - 1 ==> (es[k] in keptInit <==> accept(es[k]))
    requires kept == if accept(es[|es| - 1]) then keptInit + [es[|es| - 1]] else keptInit
    ensures forall e :: e in kept ==> e in es
    ensures forall k :: 0 <= k < |es| ==> (es[k] in kept <==> accept(es[k]))
  {
    var n := |es| - 1;
    var init := es[..n];
    forall e | e in kept ensures e in es {
      if e != es[n] {
        var j :| 0 <= j < n && init[j] == e;
        assert es[j] == e;
      }
    }
    forall k | 0 <= k < |es| ensures es[k] in kept <==> accept(es[k]) {
      if es[k] in keptInit {
        var j :| 0 <= j < n && init[j] == es[k];
        assert es[j] == es[k];
      } else if k < n {
        assert es[k] !in keptInit;
      }
    }
  }

  /** A subsequence of a ranking is still in ranking order. */
  lemma {:induction false} SubsequenceSorted(a: seq<Entry>, b: seq<Entry>)
    requires IsSubsequence(a, b) && SortedByDownloads(b)
    ensures SortedByDownloads(a)
    ensures forall x :: x in a ==> x in b
    decreases |b|
  {
    if b != [] {
      var b' := b[..|b| - 1];
      assert SortedByDownloads(b');
      if a != [] && a[|a| - 1] == b[|b| - 1] && IsSubsequence(a[..|a| - 1], b') {
        SubsequenceSorted(a[..|a| - 1], b');
        assert a == a[..|a| - 1] + [a[|a| - 1]];
        forall i, j | 0 <= i < j < |a| ensures a[i].regDownloads >= a[j].regDownloads {
          if j == |a| - 1 {
            assert a[i] in a[..|a| - 1];
            var m :| 0 <= m < |b'| && b'[m] == a[i];
            assert b[m] == a[i];
          } else {
            assert a[i] == a[..|a| - 1][i] && a[j] == a[..|a| - 1][j];
          }
        }
      } else {
        SubsequenceSorted(a, b');
      }
    }
  }

  /** A subsequence of a prefix is a subsequence of the whole. */
  lemma {:induction false} SubsequenceOfPrefix<T>(a: seq<T>, b: seq<T>, n: nat)
    requires n <= |b| && IsSubsequence(a, b[..n])
    ensures IsSubsequence(a, b)
    decreases |b| - n
  {
    if n < |b| {
      assert b[..|b| - 1][..n] == b[..n];
      SubsequenceOfPrefix(a, b[..|b| - 1], n);
    } else {
      assert b[..n] == b;
    }
  }

  function Ref(e: Entry): DependentsInput {
    DependentsInput(e.regId, e.pkg.version)
  }

  /** The (id, version) pairs the response lists for the kept rows. */
  function Refs(es: seq<Entry>): (r: seq<DependentsInput>)
    ensures |r| == |es| && forall k :: 0 <= k < |es| ==> r[k] == Ref(es[k])
  {
    seq(|es|, k requires 0 <= k < |es| => Ref(es[k]))
  }

  /** The loop run over the rows of the database query. */
  function KeptTop<V, S>(regs: seq<Registration>, id: string, v: V, lib: VersionLibrary<V, S>): Result<seq<Entry>, DependentsError> {
    TopIsRankedCandidates(regs, id);
    Kept(Top(regs, id), id, v, lib)
  }

  /** The whole query: resolve the source version, parse it, run the ranked
      and capped database query, then filter by dependency spec. */
  function Query<V, S>(regs: seq<Registration>, src: DependentsInput, lib: VersionLibrary<V, S>): Result<DependentsOutput, DependentsError> {
    match SourceVersion(regs, src)
    case None => Failure(NoLatestPackage(src.id))
    case Some(version) =>
      match lib.parse(version)
      case None => Failure(MalformedVersion(version))
      case Some(v) =>
        match KeptTop(regs, src.id, v, lib)
        case Failure(err) => Failure(err)
        case Success(kept) => Success(DependentsOutput(DependentsInput(src.id, version), Refs(kept)))
  }

  lemma {:induction false} RefsOfSubsequence(a: seq<Entry>, b: seq<Entry>)
    requires IsSubsequence(a, b)
    ensures IsSubsequence(Refs(a), Refs(b))
    decreases |b|
  {
    if b != [] {
      var b' := b[..|b| - 1];
      assert Refs(b)[..|b| - 1] == Refs(b');
      if a != [] && a[|a| - 1] == b[|b| - 1] && IsSubsequence(a[..|a| - 1], b') {
        RefsOfSubsequence(a[..|a| - 1], b');
        assert Refs(a)[..|a| - 1] == Refs(a[..|a| - 1]);
      } else {
        RefsOfSubsequence(a, b');
      }
    }
  }

  /** The version the query resolves to: the given one, or with none given
      the version of a latest package of the source id; with none, the query
      fails with NoLatestPackage. */
  lemma QueryResolvesSource<V, S>(regs: seq<Registration>, src: DependentsInput, lib: VersionLibrary<V, S>)
    ensures src.version == "" && LatestVersion(regs, src.id).None? ==> Query(regs, src, lib) == Failure(NoLatestPackage(src.id))
    ensures Query(regs, src, lib).Success? ==> Query(regs, src, lib).value.src.id == src.id
    ensures Query(regs, src, lib).Success? && src.version != "" ==> Query(regs, src, lib).value.src.version == src.version
    ensures Query(regs, src, lib).Success? && src.version == "" ==>
      exists e :: e in Entries(regs) && SameId(e.regId, src.id) && e.pkg.isLatest && e.pkg.version == Query(regs, src, lib).value.src.version
  {
  }

  /** What the query lists: at most 20 entries, each a latest package of the
      catalog that depends on the source id through a spec admitting the
      source version; every such package among the 20 best ranked is listed. */
  lemma {:induction false} QuerySelection<V, S>(regs: seq<Registration>, src: DependentsInput, lib: VersionLibrary<V, S>)
    requires Query(regs, src, lib).Success?
    ensures var out := Query(regs, src, lib).value;
      var v := lib.parse(SourceVersion(regs, src).value).value;
      && |out.dependents| <= MaxDependents
      && (forall d :: d in out.dependents ==>
            exists e :: e in Entries(regs) && IsCandidate(e, src.id) && Admits(e, src.id, v, lib) && d == Ref(e))
      && (forall e :: e in Top(regs, src.id) && IsCandidate(e, src.id) && Admits(e, src.id, v, lib) ==> Ref(e) in out.dependents)
      && (|Candidates(Entries(regs), src.id)| <= MaxDependents ==>
            forall e :: e in Entries(regs) && IsCandidate(e, src.id) && Admits(e, src.id, v, lib) ==> Ref(e) in out.dependents)
  {
    var v := lib.parse(SourceVersion(regs, src).value).value;
    var top := Top(regs, src.id);
    TopIsRankedCandidates(regs, src.id);
    KeptRefs(top, src.id, v, lib);
  }

  /** The listed pairs are exactly the pairs of the rows the loop accepts,
      and there are no more of them than rows. */
  lemma KeptRefs<V, S>(es: seq<Entry>, id: string, v: V, lib: VersionLibrary<V, S>)
    requires forall k :: 0 <= k < |es| ==> DependsOn(es[k].pkg, id)
    requires Kept(es, id, v, lib).Success?
    ensures |Refs(Kept(es, id, v, lib).value)| <= |es|
    ensures forall d :: d in Refs(Kept(es, id, v, lib).value) ==>
      exists k :: 0 <= k < |es| && Verdict(es[k], id, v, lib) == Success(true) && d == Ref(es[k])
    ensures forall k :: 0 <= k < |es| && Verdict(es[k], id, v, lib) == Success(true) ==>
      Ref(es[k]) in Refs(Kept(es, id, v, lib).value)
  {
    var kept := Kept(es, id, v, lib).value;
    KeptIsSubsequence(es, id, v, lib);
    KeptExactlyAccepted(es, id, v, lib);
    SubsequenceLength(kept, es);
    RefsOfAccepted(es, kept, id, v, lib);
  }

  lemma RefsOfAccepted<V, S>(es: seq<Entry>, kept: seq<Entry>, id: string, v: V, lib: VersionLibrary<V, S>)
    requires forall k :: 0 <= k < |es| ==> DependsOn(es[k].pkg, id)
    requires forall e :: e in kept ==> e in es
    requires forall k :: 0 <= k < |es| ==> (es[k] in kept <==> Verdict(es[k], id, v, lib) == Success(true))
    ensures forall d :: d in Refs(kept) ==>
      exists k :: 0 <= k < |es| && Verdict(es[k], id, v, lib) == Success(true) && d == Ref(es[k])
    ensures forall k :: 0 <= k < |es| && Verdict(es[k], id, v, lib) == Success(true) ==> Ref(es[k]) in Refs(kept)
  {
    var refs := Refs(kept);
    forall d | d in refs
      ensures exists k :: 0 <= k < |es| && Verdict(es[k], id, v, lib) == Success(true) && d == Ref(es[k])
    {
      var i :| 0 <= i < |kept| && d == refs[i];
      assert kept[i] in kept;
      var j :| 0 <= j < |es| && es[j] == kept[i];
      assert Verdict(es[j], id, v, lib) == Success(true) && d == Ref(es[j]);
    }
    forall k | 0 <= k < |es| && Verdict(es[k], id, v, lib) == Success(true) ensures Ref(es[k]) in refs {
      var i :| 0 <= i < |kept| && kept[i] == es[k];
      assert refs[i] == Ref(es[k]);
    }
  }

  lemma {:induction false} SubsequenceLength<T>(a: seq<T>, b: seq<T>)
    requires IsSubsequence(a, b)
    ensures |a| <= |b|
    decreases |b|
  {
    if b != [] {
      if a != [] && a[|a| - 1] == b[|b| - 1] && IsSubsequence(a[..|a| - 1], b[..|b| - 1]) {
        SubsequenceLength(a[..|a| - 1], b[..|b| - 1]);
      } else {
        SubsequenceLength(a, b[..|b| - 1]);
      }
    }
  }

  /** The cap comes before the spec filter and the loop never reorders: the
      listed entries are a subsequence of all candidates ranked by descending
      registration downloads, and they are themselves in that order. */
  lemma {:induction false} QueryOrder<V, S>(regs: seq<Registration>, src: DependentsInput, lib: VersionLibrary<V, S>)
    requires Query(regs, src, lib).Success?
    ensures var out := Query(regs, src, lib).value;
      var v := lib.parse(SourceVersion(regs, src).value).value;
      && KeptTop(regs, src.id, v, lib).Success?
      && out.dependents == Refs(KeptTop(regs, src.id, v, lib).value)
      && SortedByDownloads(KeptTop(regs, src.id, v, lib).value)
      && IsSubsequence(KeptTop(regs, src.id, v, lib).value, SortByDownloads(Candidates(Entries(regs), src.id)))
      && IsSubsequence(out.dependents, Refs(SortByDownloads(Candidates(Entries(regs), src.id))))
  {
    var v := lib.parse(SourceVersion(regs, src).value).value;
    var sorted := SortByDownloads(Candidates(Entries(regs), src.id));
    var top := Top(regs, src.id);
    TopIsRankedCandidates(regs, src.id);
    var kept := Kept(top, src.id, v, lib).value;
    KeptIsSubsequence(top, src.id, v, lib);
    SubsequenceSorted(kept, top);
    assert top == sorted[..|top|];
    SubsequenceOfPrefix(kept, sorted, |top|);
    RefsOfSubsequence(kept, sorted);
  }

  /** The query fails on a malformed dependency spec exactly when one of the
      20 best-ranked candidates has one; specs further down are never parsed. */
  lemma {:induction false} QueryFailsOnMalformedSpec<V, S>(regs: seq<Registration>, src: DependentsInput, lib: VersionLibrary<V, S>)
    requires SourceVersion(regs, src).Some? && lib.parse(SourceVersion(regs, src).value).Some?
    ensures var v := lib.parse(SourceVersion(regs, src).value).value;
      var top := Top(regs, src.id);
      Query(regs, src, lib).Failure? <==> exists k :: 0 <= k < |top| && IsCandidate(top[k], src.id) && Verdict(top[k], src.id, v, lib).Failure?
  {
    var v := lib.parse(SourceVersion(regs, src).value).value;
    TopIsRankedCandidates(regs, src.id);
    KeptFailsOnMalformedSpec(Top(regs, src.id), src.id, v, lib);
  }
}
