/**
 * `APTSources`: a list of repositories, whose listings are concatenated in
 * repository order and whose single-package lookups go to the first
 * repository that does not raise KeyError.
 */
module AptSources {

  import opened Wrappers
  import opened PyExceptions
  import Fetch
  import Results
  import AptPackages
  import AptRepository

  /** `APTSources(repositories)`; the list is only ever read. */
  datatype Sources = Sources(repositories: seq<AptRepository.Repository>)

  /** A repository's `packages`. */
  function RepoPackages(fetch: Fetch.Oracle): AptRepository.Repository -> Result<seq<AptPackages.BinaryPackage>, Exception> {
    repo => AptRepository.AllPackages(repo, fetch)
  }

  /** Each repository's `packages`, in order. */
  function PackageSteps(s: Sources, fetch: Fetch.Oracle): (rs: seq<Result<seq<AptPackages.BinaryPackage>, Exception>>)
    ensures |rs| == |s.repositories|
    ensures forall k :: 0 <= k < |rs| ==> rs[k] == AptRepository.AllPackages(s.repositories[k], fetch)
  {
    Results.Map(s.repositories, RepoPackages(fetch))
  }

  /** The `packages` property. */
  function AllPackages(s: Sources, fetch: Fetch.Oracle): Result<seq<AptPackages.BinaryPackage>, Exception> {
    Results.ConcatAll(PackageSteps(s, fetch))
  }

  /** `packages`: extending the list by each repository's packages. */
  method Packages(s: Sources, fetch: Fetch.Oracle) returns (r: Result<seq<AptPackages.BinaryPackage>, Exception>)
    ensures r == AllPackages(s, fetch)
  {
    ghost var steps := PackageSteps(s, fetch);
    var packages: seq<AptPackages.BinaryPackage> := [];
    for i := 0 to |s.repositories|
      invariant Results.ConcatAll(steps[..i]) == Success(packages)
    {
      var more := AptRepository.Packages(s.repositories[i], fetch);
      assert steps[i] == more;
      Results.ConcatAllStep(steps, i, packages);
      if more.Failure? {
        Results.ConcatAllPrefix(steps, i + 1);
        return Failure(more.error);
      }
      packages := packages + more.value;
    }
    assert steps[..|steps|] == steps;
    return Success(packages);
  }

  /**
   * `packages` succeeds exactly when every repository's does, and is then
   * their lists one after the other, in repository order, duplicates kept.
   */
  lemma PackagesConcatenate(s: Sources, fetch: Fetch.Oracle)
    ensures AllPackages(s, fetch).Success?
        <==> forall k :: 0 <= k < |s.repositories| ==> AptRepository.AllPackages(s.repositories[k], fetch).Success?
    ensures AllPackages(s, fetch).Success? ==> AllPackages(s, fetch).value == Results.Flatten(Results.Values(PackageSteps(s, fetch)))
  {
    Results.ConcatAllSuccess(PackageSteps(s, fetch));
  }

  /** The first repository whose `packages` raises decides the error. */
  lemma PackagesFirstFailure(s: Sources, fetch: Fetch.Oracle, k: nat)
    requires k < |s.repositories| && AptRepository.AllPackages(s.repositories[k], fetch).Failure?
    requires forall j :: 0 <= j < k ==> AptRepository.AllPackages(s.repositories[j], fetch).Success?
    ensures AllPackages(s, fetch) == Failure(AptRepository.AllPackages(s.repositories[k], fetch).error)
  {
    Results.ConcatAllFirstFailure(PackageSteps(s, fetch), k);
  }

  /** A repository's `get_packages_by_name(name)`. */
  function RepoByName(fetch: Fetch.Oracle, name: string): AptRepository.Repository -> Result<seq<AptPackages.BinaryPackage>, Exception> {
    repo => AptRepository.PackagesByName(repo, fetch, name)
  }

  /** Each repository's `get_packages_by_name(name)`, in order. */
  function NameSteps(s: Sources, fetch: Fetch.Oracle, name: string): (rs: seq<Result<seq<AptPackages.BinaryPackage>, Exception>>)
    ensures |rs| == |s.repositories|
    ensures forall k :: 0 <= k < |rs| ==> rs[k] == AptRepository.PackagesByName(s.repositories[k], fetch, name)
  {
    Results.Map(s.repositories, RepoByName(fetch, name))
  }

  /** `get_packages_by_name(name)`. */
  function PackagesByName(s: Sources, fetch: Fetch.Oracle, name: string): Result<seq<AptPackages.BinaryPackage>, Exception> {
    Results.ConcatAll(NameSteps(s, fetch, name))
  }

  /** `get_packages_by_name`: extending the list by each repository's matches. */
  method GetPackagesByName(s: Sources, fetch: Fetch.Oracle, name: string) returns (r: Result<seq<AptPackages.BinaryPackage>, Exception>)
    ensures r == PackagesByName(s, fetch, name)
  {
    ghost var steps := NameSteps(s, fetch, name);
    var packages: seq<AptPackages.BinaryPackage> := [];
    for i := 0 to |s.repositories|
      invariant Results.ConcatAll(steps[..i]) == Success(packages)
    {
      var more := AptRepository.GetPackagesByName(s.repositories[i], fetch, name);
      assert steps[i] == more;
      Results.ConcatAllStep(steps, i, packages);
      if more.Failure? {
        Results.ConcatAllPrefix(steps, i + 1);
        return Failure(more.error);
      }
      packages := packages + more.value;
    }
    assert steps[..|steps|] == steps;
    return Success(packages);
  }

  /** `__getitem__(item)` is `get_packages_by_name(item)`. */
  method GetItem(s: Sources, fetch: Fetch.Oracle, item: string) returns (r: Result<seq<AptPackages.BinaryPackage>, Exception>)
    ensures r == PackagesByName(s, fetch, item)
  {
    r := GetPackagesByName(s, fetch, item);
  }

  /**
   * `get_packages_by_name` succeeds exactly when every repository's does,
   * and then holds the repositories' matches one after the other.
   */
  lemma PackagesByNameConcatenate(s: Sources, fetch: Fetch.Oracle, name: string)
    ensures PackagesByName(s, fetch, name).Success?
        <==> forall k :: 0 <= k < |s.repositories| ==> AptRepository.PackagesByName(s.repositories[k], fetch, name).Success?
    ensures PackagesByName(s, fetch, name).Success?
        ==> PackagesByName(s, fetch, name).value == Results.Flatten(Results.Values(NameSteps(s, fetch, name)))
  {
    Results.ConcatAllSuccess(NameSteps(s, fetch, name));
  }

  /** Each repository's `get_package(name, version)`, in order. */
  function PackageTries(s: Sources, fetch: Fetch.Oracle, name: string, version: string): (rs: seq<Result<AptPackages.BinaryPackage, Exception>>)
    ensures |rs| == |s.repositories|
    ensures forall k :: 0 <= k < |rs| ==> rs[k] == AptRepository.PackageSpec(s.repositories[k], fetch, name, version)
  {
    seq(|s.repositories|, k requires 0 <= k < |s.repositories| => AptRepository.PackageSpec(s.repositories[k], fetch, name, version))
  }

  /** `get_package(name, version)`. */
  function Package(s: Sources, fetch: Fetch.Oracle, name: string, version: string): Result<AptPackages.BinaryPackage, Exception> {
    Results.FirstNonKeyError(PackageTries(s, fetch, name, version), name, version)
  }

  /** `get_package`: the first repository that does not raise KeyError answers. */
  method GetPackage(s: Sources, fetch: Fetch.Oracle, name: string, version: string) returns (r: Result<AptPackages.BinaryPackage, Exception>)
    ensures r == Package(s, fetch, name, version)
  {
    ghost var tries := PackageTries(s, fetch, name, version);
    for i := 0 to |s.repositories|
      invariant Package(s, fetch, name, version) == Results.FirstNonKeyError(tries[i..], name, version)
    {
      assert tries[i..][1..] == tries[i + 1..];
      var found := AptRepository.GetPackage(s.repositories[i], fetch, name, version);
      if !IsKeyError(found) {
        return found;
      }
    }
    return Failure(KeyError(name, version));
  }

  /**
   * The first repository whose `get_package` does not raise KeyError
   * decides the answer, found or another error; later ones do not count.
   */
  lemma PackageFirstWins(s: Sources, fetch: Fetch.Oracle, name: string, version: string, k: nat)
    requires k < |s.repositories| && !IsKeyError(AptRepository.PackageSpec(s.repositories[k], fetch, name, version))
    requires forall j :: 0 <= j < k ==> IsKeyError(AptRepository.PackageSpec(s.repositories[j], fetch, name, version))
    ensures Package(s, fetch, name, version) == AptRepository.PackageSpec(s.repositories[k], fetch, name, version)
  {
    Results.FirstNonKeyErrorWins(PackageTries(s, fetch, name, version), name, version, k);
  }

  /** `get_package` raises KeyError exactly when every repository does, and then it is KeyError(name, version). */
  lemma PackageMiss(s: Sources, fetch: Fetch.Oracle, name: string, version: string)
    ensures IsKeyError(Package(s, fetch, name, version))
        <==> forall k :: 0 <= k < |s.repositories| ==> IsKeyError(AptRepository.PackageSpec(s.repositories[k], fetch, name, version))
    ensures IsKeyError(Package(s, fetch, name, version)) ==> Package(s, fetch, name, version) == Failure(KeyError(name, version))
  {
    Results.FirstNonKeyErrorMiss(PackageTries(s, fetch, name, version), name, version);
  }

  /** Each repository's `get_package_url(name, version)`, in order. */
  function UrlTries(s: Sources, fetch: Fetch.Oracle, name: string, version: string): (rs: seq<Result<string, Exception>>)
    ensures |rs| == |s.repositories|
    ensures forall k :: 0 <= k < |rs| ==> rs[k] == AptRepository.PackageUrlSpec(s.repositories[k], fetch, name, version)
  {
    seq(|s.repositories|, k requires 0 <= k < |s.repositories| => AptRepository.PackageUrlSpec(s.repositories[k], fetch, name, version))
  }

  /** `get_package_url(name, version)`. */
  function PackageUrl(s: Sources, fetch: Fetch.Oracle, name: string, version: string): Result<string, Exception> {
    Results.FirstNonKeyError(UrlTries(s, fetch, name, version), name, version)
  }

  /** `get_package_url`: the first repository that does not raise KeyError answers. */
  method GetPackageUrl(s: Sources, fetch: Fetch.Oracle, name: string, version: string) returns (r: Result<string, Exception>)
    ensures r == PackageUrl(s, fetch, name, version)
  {
    ghost var tries := UrlTries(s, fetch, name, version);
    for i := 0 to |s.repositories|
      invariant PackageUrl(s, fetch, name, version) == Results.FirstNonKeyError(tries[i..], name, version)
    {
      assert tries[i..][1..] == tries[i + 1..];
      var url := AptRepository.GetPackageUrl(s.repositories[i], fetch, name, version);
      if !IsKeyError(url) {
        return url;
      }
    }
    return Failure(KeyError(name, version));
  }

  /** The first repository whose `get_package_url` does not raise KeyError decides the answer. */
  lemma PackageUrlFirstWins(s: Sources, fetch: Fetch.Oracle, name: string, version: string, k: nat)
    requires k < |s.repositories| && !IsKeyError(AptRepository.PackageUrlSpec(s.repositories[k], fetch, name, version))
    requires forall j :: 0 <= j < k ==> IsKeyError(AptRepository.PackageUrlSpec(s.repositories[j], fetch, name, version))
    ensures PackageUrl(s, fetch, name, version) == AptRepository.PackageUrlSpec(s.repositories[k], fetch, name, version)
  {
    Results.FirstNonKeyErrorWins(UrlTries(s, fetch, name, version), name, version, k);
  }

  /** `get_package_url` raises KeyError exactly when every repository does, and then it is KeyError(name, version). */
  lemma PackageUrlMiss(s: Sources, fetch: Fetch.Oracle, name: string, version: string)
    ensures IsKeyError(PackageUrl(s, fetch, name, version))
        <==> forall k :: 0 <= k < |s.repositories| ==> IsKeyError(AptRepository.PackageUrlSpec(s.repositories[k], fetch, name, version))
    ensures IsKeyError(PackageUrl(s, fetch, name, version)) ==> PackageUrl(s, fetch, name, version) == Failure(KeyError(name, version))
  {
    Results.FirstNonKeyErrorMiss(UrlTries(s, fetch, name, version), name, version);
  }

  /**
   * A package found without a Filename line makes `get_package_url` raise
   * KeyError in that repository, so the next repository is asked instead.
   */
  lemma MissingFilenameFallsThrough(s: Sources, fetch: Fetch.Oracle, name: string, version: string)
    requires |s.repositories| >= 2
    requires AptRepository.PackageSpec(s.repositories[0], fetch, name, version).Success?
    requires AptPackages.Required(AptRepository.PackageSpec(s.repositories[0], fetch, name, version).value, AptPackages.Filename).Failure?
    ensures PackageUrl(s, fetch, name, version) == Results.FirstNonKeyError(UrlTries(s, fetch, name, version)[1..], name, version)
  {
    var p := AptRepository.PackageSpec(s.repositories[0], fetch, name, version).value;
    assert AptPackages.Required(p, AptPackages.Filename).error.KeyError?;
    assert IsKeyError(UrlTries(s, fetch, name, version)[0]);
  }

  /**
   * While `packages` succeeds, `get_packages_by_name` is the filter of all
   * packages of all repositories: the matches in repository order, or the
   * KeyError of the first stanza without a Package line.
   */
  lemma {:induction false} ByNameIsFilter(s: Sources, fetch: Fetch.Oracle, name: string)
    requires AllPackages(s, fetch).Success?
    ensures PackagesByName(s, fetch, name) == AptRepository.Named(AllPackages(s, fetch).value, name)
    decreases |s.repositories|
  {
    var repos := s.repositories;
    if repos == [] {
      assert NameSteps(s, fetch, name) == [];
      assert AptRepository.NameSteps([], name) == [];
    } else {
      var n := |repos| - 1;
      var init := Sources(repos[..n]);
      SplitLast(s, fetch, name);
      var pl := AptRepository.AllPackages(repos[n], fetch);
      var nl := AptRepository.PackagesByName(repos[n], fetch, name);
      Results.ConcatAllAppend(PackageSteps(init, fetch), [pl]);
      Results.ConcatAllOne(pl);
      Results.ConcatAllAppend(NameSteps(init, fetch, name), [nl]);
      Results.ConcatAllOne(nl);
      var a := AllPackages(init, fetch).value;
      ByNameIsFilter(init, fetch, name);
      AptRepository.NamedAppend(a, pl.value, name);
    }
  }

  /** The steps of a non-empty collection are those of all but its last repository, then the last one's. */
  lemma SplitLast(s: Sources, fetch: Fetch.Oracle, name: string)
    requires s.repositories != []
    ensures var n := |s.repositories| - 1;
      PackageSteps(s, fetch) == PackageSteps(Sources(s.repositories[..n]), fetch) + [AptRepository.AllPackages(s.repositories[n], fetch)]
    ensures var n := |s.repositories| - 1;
      NameSteps(s, fetch, name) == NameSteps(Sources(s.repositories[..n]), fetch, name) + [AptRepository.PackagesByName(s.repositories[n], fetch, name)]
  {
    Results.MapSnoc(s.repositories, RepoPackages(fetch));
    Results.MapSnoc(s.repositories, RepoByName(fetch, name));
  }
}
