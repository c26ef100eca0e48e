/**
 * The earlier copy of the library (`apt-repo/__init__.py`). Its field
 * reader, download helpers and Release and Packages views do what the
 * current copy's do and are modelled by the same members; its
 * `release_file` joins with `os.path.join`, which is `posixpath.join` on a
 * POSIX host, so it fetches the URL the current one does. What differs is
 * here: a package exposes only its name and version,
 * `get_binary_packages_by_component` has no branch for component None (the
 * join raises TypeError), `packages` has no flat-repository fallback, and
 * the collection offers only the two listings.
 */
module AptRepoLegacy {

  import opened Wrappers
  import opened PyExceptions
  import Fetch
  import Results
  import AptValue
  import AptPackages
  import AptRepository

  /** The two properties of the earlier `BinaryPackage`. */
  datatype PackageField = Package | Version

  function FieldKey(f: PackageField): string {
    match f
    case Package => "Package"
    case Version => "Version"
  }

  /** `package` and `version`: the raw value; a missing key raises KeyError. */
  function Field(p: AptPackages.BinaryPackage, f: PackageField): (v: Result<string, Exception>)
    ensures AptValue.Reads(p.content, FieldKey(f), v)
  {
    AptValue.GetValue(p.content, FieldKey(f))
  }

  /** The two properties read exactly what the current copy's `package` and `version` read. */
  lemma FieldAgrees(p: AptPackages.BinaryPackage)
    ensures Field(p, Package) == AptPackages.Required(p, AptPackages.Package)
    ensures Field(p, Version) == AptPackages.Required(p, AptPackages.Version)
  {
    assert FieldKey(Package) == AptPackages.RequiredKey(AptPackages.Package);
    assert FieldKey(Version) == AptPackages.RequiredKey(AptPackages.Version);
  }

  /**
   * The earlier `get_binary_packages_by_component`. The URL is always
   * `dists/<dist>/<component>/binary-<arch>/Packages`, so component None
   * raises TypeError in the join before anything is downloaded; a named
   * component is downloaded through the suffix loop, failing with
   * AttributeError exactly when no suffix opens.
   */
  function ComponentPackages(repo: AptRepository.Repository, fetch: Fetch.Oracle, component: Option<string>, arch: string)
    : (r: Result<seq<AptPackages.BinaryPackage>, Exception>)
    ensures r == Failure(TypeError) <==> component.None?
    ensures component.Some? ==> (r == Failure(AttributeError)
        <==> forall j :: 0 <= j < |Fetch.Suffixes| ==> fetch(AptRepository.PackagesUrl(repo, component, arch) + Fetch.Suffixes[j]).Unreachable?)
    ensures r.Failure? ==> r.error == TypeError || r.error == AttributeError || r.error.DecodeError?
  {
    match component
    case None => Failure(TypeError)
    case Some(_) => AptRepository.ComponentPackages(repo, fetch, component, arch)
  }

  /**
   * On a named component the two copies download and list the same; on
   * None the earlier one raises TypeError, which the current one never
   * does: it reads a flat repository's `<dist>/Packages` instead.
   */
  lemma ComponentAgrees(repo: AptRepository.Repository, fetch: Fetch.Oracle, component: Option<string>, arch: string)
    ensures component.Some? ==> ComponentPackages(repo, fetch, component, arch) == AptRepository.ComponentPackages(repo, fetch, component, arch)
    ensures component.None? ==> ComponentPackages(repo, fetch, component, arch) != AptRepository.ComponentPackages(repo, fetch, component, arch)
  {
  }

  /** `get_binary_packages_by_component` of the earlier copy. */
  method GetBinaryPackagesByComponent(repo: AptRepository.Repository, fetch: Fetch.Oracle, component: Option<string>, arch: string)
    returns (r: Result<seq<AptPackages.BinaryPackage>, Exception>)
    ensures r == ComponentPackages(repo, fetch, component, arch)
  {
    if component.None? {
      return Failure(TypeError);
    }
    r := AptRepository.GetBinaryPackagesByComponent(repo, fetch, component, arch);
  }

  /** The download of one configured component. */
  function ComponentFetch(repo: AptRepository.Repository, fetch: Fetch.Oracle)
    : string -> Result<seq<AptPackages.BinaryPackage>, Exception>
  {
    c => ComponentPackages(repo, fetch, Some(c), AptRepository.DefaultArch)
  }

  /** One download per configured component, in order; none at all for an empty list. */
  function Steps(repo: AptRepository.Repository, fetch: Fetch.Oracle): (rs: seq<Result<seq<AptPackages.BinaryPackage>, Exception>>)
    ensures |rs| == |repo.components|
    ensures forall k :: 0 <= k < |rs| ==> rs[k] == ComponentPackages(repo, fetch, Some(repo.components[k]), AptRepository.DefaultArch)
  {
    Results.Map(repo.components, ComponentFetch(repo, fetch))
  }

  /** The `packages` property of the earlier `APTRepository`. */
  function AllPackages(repo: AptRepository.Repository, fetch: Fetch.Oracle): Result<seq<AptPackages.BinaryPackage>, Exception> {
    Results.ConcatAll(Steps(repo, fetch))
  }

  /** `packages`: one download per configured component, extending the list. */
  method Packages(repo: AptRepository.Repository, fetch: Fetch.Oracle) returns (r: Result<seq<AptPackages.BinaryPackage>, Exception>)
    ensures r == AllPackages(repo, fetch)
  {
    ghost var steps := Steps(repo, fetch);
    var packages: seq<AptPackages.BinaryPackage> := [];
    for i := 0 to |repo.components|
      invariant Results.ConcatAll(steps[..i]) == Success(packages)
    {
      var more := GetBinaryPackagesByComponent(repo, fetch, Some(repo.components[i]), AptRepository.DefaultArch);
      assert steps[i] == more;
      Results.ConcatAllStep(steps, i, packages);
      if more.Failure? {
        Results.ConcatAllPrefix(steps, i + 1);
        return Failure(more.error);
      }
      packages := packages + more.value;
    }
    assert steps[..|steps|] == steps;
    return Success(packages);
  }

  /** Without components nothing is downloaded and the list is empty, whatever the network does. */
  lemma NoComponentsNoPackages(repo: AptRepository.Repository, fetch: Fetch.Oracle)
    requires repo.components == []
    ensures AllPackages(repo, fetch) == Success([])
  {
    assert Steps(repo, fetch) == [];
  }

  /** With at least one component the earlier `packages` is the current one. */
  lemma AgreesWithCurrent(repo: AptRepository.Repository, fetch: Fetch.Oracle)
    requires repo.components != []
    ensures AllPackages(repo, fetch) == AptRepository.AllPackages(repo, fetch)
  {
    forall k | 0 <= k < |repo.components|
      ensures Steps(repo, fetch)[k] == AptRepository.Steps(repo, fetch)[k]
    {
      ComponentAgrees(repo, fetch, Some(repo.components[k]), AptRepository.DefaultArch);
    }
    assert Steps(repo, fetch) == AptRepository.Steps(repo, fetch);
  }

  /**
   * For a flat repository the two copies differ: the current one downloads
   * `<dist>/Packages` and lists what it holds, the earlier one lists nothing.
   */
  lemma FlatRepositoryDiffers(repo: AptRepository.Repository, fetch: Fetch.Oracle)
    requires repo.components == []
    requires AptRepository.ComponentPackages(repo, fetch, None, AptRepository.DefaultArch).Success?
    requires AptRepository.ComponentPackages(repo, fetch, None, AptRepository.DefaultArch).value != []
    ensures AllPackages(repo, fetch) == Success([])
    ensures AptRepository.AllPackages(repo, fetch) == AptRepository.ComponentPackages(repo, fetch, None, AptRepository.DefaultArch)
    ensures AllPackages(repo, fetch) != AptRepository.AllPackages(repo, fetch)
  {
    NoComponentsNoPackages(repo, fetch);
    AptRepository.PackagesFlat(repo, fetch);
  }

  /** `get_packages_by_name(name)`: the `package == name` filter over the earlier `packages`. */
  function PackagesByName(repo: AptRepository.Repository, fetch: Fetch.Oracle, name: string): (r: Result<seq<AptPackages.BinaryPackage>, Exception>)
    ensures AllPackages(repo, fetch).Failure? ==> r == Failure(AllPackages(repo, fetch).error)
    ensures AllPackages(repo, fetch).Success? ==> r == AptRepository.Named(AllPackages(repo, fetch).value, name)
    ensures r.Success? ==>
      forall p :: p in r.value <==> p in AllPackages(repo, fetch).value && Field(p, Package) == Success(name)
  {
    var pkgs :- AllPackages(repo, fetch);
    AptRepository.NamedFilter(pkgs, name);
    forall p | p in pkgs ensures Field(p, Package) == AptPackages.Required(p, AptPackages.Package) {
      FieldAgrees(p);
    }
    AptRepository.Named(pkgs, name)
  }

  /** `get_packages_by_name`: reads `packages` once, then runs the same filter loop as the current copy. */
  method GetPackagesByName(repo: AptRepository.Repository, fetch: Fetch.Oracle, name: string) returns (r: Result<seq<AptPackages.BinaryPackage>, Exception>)
    ensures r == PackagesByName(repo, fetch, name)
  {
    var all := Packages(repo, fetch);
    if all.Failure? {
      return Failure(all.error);
    }
    r := AptRepository.FilterByName(all.value, name);
  }

  /** A repository's earlier `packages`. */
  function RepoPackages(fetch: Fetch.Oracle): AptRepository.Repository -> Result<seq<AptPackages.BinaryPackage>, Exception> {
    repo => AllPackages(repo, fetch)
  }

  /** A repository's earlier `get_packages_by_name(name)`. */
  function RepoByName(fetch: Fetch.Oracle, name: string): AptRepository.Repository -> Result<seq<AptPackages.BinaryPackage>, Exception> {
    repo => PackagesByName(repo, fetch, name)
  }

  /** `APTSources.packages` of the earlier copy. */
  function SourcesPackages(repos: seq<AptRepository.Repository>, fetch: Fetch.Oracle): Result<seq<AptPackages.BinaryPackage>, Exception> {
    Results.ConcatAll(Results.Map(repos, RepoPackages(fetch)))
  }

  /** `APTSources.packages`: extending the list by each repository's packages. */
  method GetSourcesPackages(repos: seq<AptRepository.Repository>, fetch: Fetch.Oracle) returns (r: Result<seq<AptPackages.BinaryPackage>, Exception>)
    ensures r == SourcesPackages(repos, fetch)
  {
    ghost var steps := Results.Map(repos, RepoPackages(fetch));
    var packages: seq<AptPackages.BinaryPackage> := [];
    for i := 0 to |repos|
      invariant Results.ConcatAll(steps[..i]) == Success(packages)
    {
      var more := Packages(repos[i], fetch);
      assert steps[i] == more;
      Results.ConcatAllStep(steps, i, packages);
      if more.Failure? {
        Results.ConcatAllPrefix(steps, i + 1);
        return Failure(more.error);
      }
      packages := packages + more.value;
    }
    assert steps[..|steps|] == steps;
    return Success(packages);
  }

  /** `APTSources.get_packages_by_name(name)` of the earlier copy. */
  function SourcesByName(repos: seq<AptRepository.Repository>, fetch: Fetch.Oracle, name: string): Result<seq<AptPackages.BinaryPackage>, Exception> {
    Results.ConcatAll(Results.Map(repos, RepoByName(fetch, name)))
  }

  /** `APTSources.get_packages_by_name`: extending the list by each repository's matches. */
  method GetSourcesByName(repos: seq<AptRepository.Repository>, fetch: Fetch.Oracle, name: string) returns (r: Result<seq<AptPackages.BinaryPackage>, Exception>)
    ensures r == SourcesByName(repos, fetch, name)
  {
    ghost var steps := Results.Map(repos, RepoByName(fetch, name));
    var packages: seq<AptPackages.BinaryPackage> := [];
    for i := 0 to |repos|
      invariant Results.ConcatAll(steps[..i]) == Success(packages)
    {
      var more := GetPackagesByName(repos[i], fetch, name);
      assert steps[i] == more;
      Results.ConcatAllStep(steps, i, packages);
      if more.Failure? {
        Results.ConcatAllPrefix(steps, i + 1);
        return Failure(more.error);
      }
      packages := packages + more.value;
    }
    assert steps[..|steps|] == steps;
    return Success(packages);
  }

  /**
   * Both listings of the collection succeed exactly when every repository's
   * does, and are then the repositories' lists one after the other.
   */
  lemma SourcesConcatenate(repos: seq<AptRepository.Repository>, fetch: Fetch.Oracle, name: string)
    ensures SourcesPackages(repos, fetch).Success? <==> forall k :: 0 <= k < |repos| ==> AllPackages(repos[k], fetch).Success?
    ensures SourcesPackages(repos, fetch).Success?
        ==> SourcesPackages(repos, fetch).value == Results.Flatten(Results.Values(Results.Map(repos, RepoPackages(fetch))))
    ensures SourcesByName(repos, fetch, name).Success? <==> forall k :: 0 <= k < |repos| ==> PackagesByName(repos[k], fetch, name).Success?
    ensures SourcesByName(repos, fetch, name).Success?
        ==> SourcesByName(repos, fetch, name).value == Results.Flatten(Results.Values(Results.Map(repos, RepoByName(fetch, name))))
  {
    Results.ConcatAllSuccess(Results.Map(repos, RepoPackages(fetch)));
    Results.ConcatAllSuccess(Results.Map(repos, RepoByName(fetch, name)));
  }
}
