/**
 * `APTRepository`: one repository, its metadata URLs and its lookups, with
 * the network given as an oracle.
 */
module AptRepository {

  import opened Wrappers
  import opened PyExceptions
  import PyText
  import PosixPath
  import Fetch
  import Results
  import AptRelease
  import AptPackages

  /** `APTRepository(url, dist, components)`, with the components as a list of names. */
  datatype Repository = Repository(url: string, dist: string, components: seq<string>)

  /** The architecture of `packages`: a property cannot be passed its `arch` argument. */
  const DefaultArch: string := "amd64"

  /**
   * `APTRepository.from_sources_list_entry(entry)`: the whitespace tokens
   * after the first are the URL, the distribution and the components. With
   * fewer than three tokens the indexing raises IndexError; the slice for
   * the components never raises, so the `except` around it never fires.
   */
  function FromSourcesListEntry(entry: string): (r: Result<Repository, Exception>)
    ensures r.Failure? <==> |PyText.Words(entry)| < 3
    ensures r.Failure? ==> r.error == IndexError
    ensures r.Success? ==> [r.value.url, r.value.dist] + r.value.components == PyText.Words(entry)[1..]
    ensures r.Success? ==> forall k :: 0 <= k < |r.value.components| ==> r.value.components[k] != [] && PyText.NoSpace(r.value.components[k])
  {
    var tokens := PyText.Words(entry);
    if |tokens| < 3 then Failure(IndexError)
    else
      assert tokens[1..] == [tokens[1], tokens[2]] + tokens[3..];
      Success(Repository(tokens[1], tokens[2], tokens[3..]))
  }

  /** The words of an entry written from a repository: its kind, url, distribution and components. */
  lemma EntryWords(kind: string, repo: Repository)
    requires kind != [] && PyText.NoSpace(kind)
    requires repo.url != [] && PyText.NoSpace(repo.url)
    requires repo.dist != [] && PyText.NoSpace(repo.dist)
    requires forall k :: 0 <= k < |repo.components| ==> repo.components[k] != [] && PyText.NoSpace(repo.components[k])
    ensures var ws := [kind, repo.url, repo.dist] + repo.components;
      && (forall k :: 0 <= k < |ws| ==> ws[k] != [] && PyText.NoSpace(ws[k]))
      && ws[1] == repo.url && ws[2] == repo.dist && ws[3..] == repo.components
  {
    var ws := [kind, repo.url, repo.dist] + repo.components;
    forall k | 0 <= k < |ws| ensures ws[k] != [] && PyText.NoSpace(ws[k]) {
      if k >= 3 {
        assert ws[k] == repo.components[k - 3];
      }
    }
    assert ws[3..] == repo.components;
  }

  /** A sources.list line written from a repository reads back as that repository. */
  lemma EntryRoundTrip(kind: string, repo: Repository)
    requires kind != [] && PyText.NoSpace(kind)
    requires repo.url != [] && PyText.NoSpace(repo.url)
    requires repo.dist != [] && PyText.NoSpace(repo.dist)
    requires forall k :: 0 <= k < |repo.components| ==> repo.components[k] != [] && PyText.NoSpace(repo.components[k])
    ensures FromSourcesListEntry(PyText.JoinWith([kind, repo.url, repo.dist] + repo.components, " ")) == Success(repo)
  {
    EntryWords(kind, repo);
    PyText.WordsOfJoin([kind, repo.url, repo.dist] + repo.components);
  }

  /**
   * The same with any whitespace layout: tabs, runs of blanks, and leading
   * or trailing whitespace around the fields.
   */
  lemma EntrySpreadRoundTrip(kind: string, repo: Repository, gaps: seq<string>)
    requires kind != [] && PyText.NoSpace(kind)
    requires repo.url != [] && PyText.NoSpace(repo.url)
    requires repo.dist != [] && PyText.NoSpace(repo.dist)
    requires forall k :: 0 <= k < |repo.components| ==> repo.components[k] != [] && PyText.NoSpace(repo.components[k])
    requires |gaps| == |repo.components| + 4 && PyText.Separating(gaps)
    ensures FromSourcesListEntry(PyText.Spread([kind, repo.url, repo.dist] + repo.components, gaps)) == Success(repo)
  {
    EntryWords(kind, repo);
    PyText.WordsOfSpread([kind, repo.url, repo.dist] + repo.components, gaps);
  }

  /** The entry of the repository's own test: one component. */
  lemma UbuntuEntry()
    ensures FromSourcesListEntry("deb " + "http://archive.ubuntu.com/ubuntu" + " bionic main")
         == Success(Repository("http://archive.ubuntu.com/ubuntu", "bionic", ["main"]))
  {
    var repo := Repository("http://archive.ubuntu.com/ubuntu", "bionic", ["main"]);
    UbuntuLine();
    assert ["deb", repo.url, repo.dist] + repo.components == ["deb", "http://archive.ubuntu.com/ubuntu", "bionic", "main"];
    EntryRoundTrip("deb", repo);
  }

  /** The words and joined line of the Ubuntu sources entry. A step of the literal example proof, split out to keep each proof within the resource limit. */
  lemma UbuntuLine()
    ensures PyText.NoSpace("deb") && PyText.NoSpace("http://archive.ubuntu.com/ubuntu")
    ensures PyText.NoSpace("bionic") && PyText.NoSpace("main")
    ensures PyText.JoinWith(["deb", "http://archive.ubuntu.com/ubuntu", "bionic", "main"], " ")
         == "deb " + "http://archive.ubuntu.com/ubuntu" + " bionic main"
  {
    var ws := ["deb", "http://archive.ubuntu.com/ubuntu", "bionic", "main"];
    var u := ws[1];
    PyText.NoSpaceOfVisible(u);
    assert PyText.JoinWith(ws[3..], " ") == "main";
    assert PyText.JoinWith(ws[2..], " ") == "bionic" + " " + "main";
    assert PyText.JoinWith(ws[1..], " ") == u + " " + ("bionic" + " " + "main");
    assert PyText.JoinWith(ws, " ") == "deb" + " " + (u + " " + ("bionic" + " " + "main"));
    assert " " + ("bionic" + " " + "main") == " bionic main";
    assert "deb" + " " == "deb ";
  }

  /** The flat-repository entry of the repository's own test: no components. */
  lemma JenkinsEntry()
    ensures FromSourcesListEntry("deb " + "https://pkg.jenkins.io/debian/" + " binary")
         == Success(Repository("https://pkg.jenkins.io/debian/", "binary", []))
  {
    var repo := Repository("https://pkg.jenkins.io/debian/", "binary", []);
    JenkinsLine();
    assert ["deb", repo.url, repo.dist] + repo.components == ["deb", "https://pkg.jenkins.io/debian/", "binary"] + [];
    EntryRoundTrip("deb", repo);
  }

  /** The words and joined line of the Jenkins sources entry. A step of the literal example proof, split out to keep each proof within the resource limit. */
  lemma JenkinsLine()
    ensures PyText.NoSpace("deb") && PyText.NoSpace("https://pkg.jenkins.io/debian/") && PyText.NoSpace("binary")
    ensures PyText.JoinWith(["deb", "https://pkg.jenkins.io/debian/", "binary"] + [], " ")
         == "deb " + "https://pkg.jenkins.io/debian/" + " binary"
  {
    var ws := ["deb", "https://pkg.jenkins.io/debian/", "binary"] + [];
    var u := ws[1];
    PyText.NoSpaceOfVisible(u);
    assert PyText.JoinWith(ws[2..], " ") == "binary";
    assert PyText.JoinWith(ws[1..], " ") == u + " " + "binary";
    assert PyText.JoinWith(ws, " ") == "deb" + " " + (u + " " + "binary");
    assert " " + "binary" == " binary";
    assert "deb" + " " == "deb ";
  }



  /** `release_file`'s URL, `posixpath.join(url, 'dists', dist, 'Release')`. */
  function ReleaseUrl(repo: Repository): string {
    PosixPath.Join(repo.url, ["dists", repo.dist, "Release"])
  }

  /**
   * The Packages index URL of `get_binary_packages_by_component`: directly
   * under the distribution for component None (a flat repository), under
   * `dists/<dist>/<component>/binary-<arch>/` otherwise.
   */
  function PackagesUrl(repo: Repository, component: Option<string>, arch: string): string {
    match component
    case None => PosixPath.Join(repo.url, [repo.dist, "Packages"])
    case Some(c) => PosixPath.Join(repo.url, ["dists", repo.dist, c, "binary-" + arch, "Packages"])
  }

  /**
   * The Release URL is `dists/<dist>/Release` below the base URL, with
   * exactly one '/' at each joint; a distribution that starts with '/'
   * replaces the base.
   */
  lemma ReleaseUrlShape(repo: Repository)
    ensures PosixPath.PlainSegment(repo.dist) ==> ReleaseUrl(repo) == PosixPath.Lead(repo.url) + PyText.JoinWith(["dists", repo.dist, "Release"], "/")
    ensures PosixPath.StartsWithSlash(repo.dist) ==> ReleaseUrl(repo) == PosixPath.Lead(repo.dist) + "Release"
  {
    var parts := ["dists", repo.dist, "Release"];
    if PosixPath.PlainSegment(repo.dist) {
      PosixPath.JoinPlain(repo.url, parts);
    }
    if PosixPath.StartsWithSlash(repo.dist) {
      PosixPath.JoinAbsolute(repo.url, parts, 1);
      assert parts[2..] == ["Release"];
    }
  }

  /** The Packages URL of a flat repository is `<dist>/Packages` below the base URL. */
  lemma FlatPackagesUrl(repo: Repository, arch: string)
    requires PosixPath.PlainSegment(repo.dist)
    ensures PackagesUrl(repo, None, arch) == PosixPath.Lead(repo.url) + PyText.JoinWith([repo.dist, "Packages"], "/")
  {
    PosixPath.JoinPlain(repo.url, [repo.dist, "Packages"]);
  }

  /** The Packages URL of a component is `dists/<dist>/<component>/binary-<arch>/Packages` below the base URL. */
  lemma ComponentPackagesUrl(repo: Repository, component: string, arch: string)
    requires PosixPath.PlainSegment(repo.dist) && PosixPath.PlainSegment(component) && PosixPath.PlainSegment("binary-" + arch)
    ensures PackagesUrl(repo, Some(component), arch)
         == PosixPath.Lead(repo.url) + PyText.JoinWith(["dists", repo.dist, component, "binary-" + arch, "Packages"], "/")
  {
    PosixPath.JoinPlain(repo.url, ["dists", repo.dist, component, "binary-" + arch, "Packages"]);
  }

  /** A component that starts with '/' discards the base URL and the distribution. */
  lemma AbsoluteComponentUrl(repo: Repository, component: string, arch: string)
    requires PosixPath.StartsWithSlash(component) && PosixPath.PlainSegment("binary-" + arch)
    ensures PackagesUrl(repo, Some(component), arch) == PosixPath.Lead(component) + PyText.JoinWith(["binary-" + arch, "Packages"], "/")
  {
    var b := "binary-" + arch;
    var parts := ["dists", repo.dist, component, b, "Packages"];
    PosixPath.JoinAbsolute(repo.url, parts, 2);
    assert parts[3..] == [b, "Packages"];
    PosixPath.JoinPlain(component, [b, "Packages"]);
  }

  /** The Release URL of the Ubuntu example repository. */
  lemma UbuntuReleaseUrl()
    ensures ReleaseUrl(Repository("http://archive.ubuntu.com/ubuntu", "bionic", ["main"]))
         == "http://archive.ubuntu.com/ubuntu/" + ("dists/" + ("bionic/" + "Release"))
  {
    var ubuntu := Repository("http://archive.ubuntu.com/ubuntu", "bionic", ["main"]);
    assert PosixPath.Lead(ubuntu.url) == "http://archive.ubuntu.com/ubuntu/";
    ReleaseUrlShape(ubuntu);
    DistsJoin(["dists", "bionic", "Release"], ["dists/", "bionic/", "Release"]);
  }

  /** The Packages URL of the Ubuntu example repository's `main` component. */
  lemma UbuntuPackagesUrl()
    ensures PackagesUrl(Repository("http://archive.ubuntu.com/ubuntu", "bionic", ["main"]), Some("main"), DefaultArch)
         == "http://archive.ubuntu.com/ubuntu/" + ("dists/" + ("bionic/" + ("main/" + ("binary-amd64/" + "Packages"))))
  {
    var ubuntu := Repository("http://archive.ubuntu.com/ubuntu", "bionic", ["main"]);
    assert PosixPath.Lead(ubuntu.url) == "http://archive.ubuntu.com/ubuntu/";
    assert "binary-" + DefaultArch == "binary-amd64";
    ComponentPackagesUrl(ubuntu, "main", DefaultArch);
    MainSegments("bionic");
    assert "bionic" + "/" == "bionic/";
  }

  /** The Packages URL of the flat example repository, whose URL already ends in '/'. */
  lemma JenkinsPackagesUrl()
    ensures PackagesUrl(Repository("https://pkg.jenkins.io/debian/", "binary", []), None, DefaultArch)
         == "https://pkg.jenkins.io/debian/" + ("binary/" + "Packages")
  {
    var jenkins := Repository("https://pkg.jenkins.io/debian/", "binary", []);
    assert PosixPath.Lead(jenkins.url) == jenkins.url;
    FlatPackagesUrl(jenkins, DefaultArch);
    DistsJoin(["binary", "Packages"], ["binary/", "Packages"]);
  }

  /** The right-nested concatenation of `pieces`. */
  function Chain(pieces: seq<string>): string {
    if pieces == [] then [] else if |pieces| == 1 then pieces[0] else pieces[0] + Chain(pieces[1..])
  }

  /** Joining with '/' is the chain of the segments with their '/' attached. A step of the literal example proof, split out to keep each proof within the resource limit. */
  lemma {:induction false} DistsJoin(parts: seq<string>, pieces: seq<string>)
    requires |parts| == |pieces| >= 1
    requires forall k :: 0 <= k < |parts| - 1 ==> pieces[k] == parts[k] + "/"
    requires pieces[|parts| - 1] == parts[|parts| - 1]
    ensures PyText.JoinWith(parts, "/") == Chain(pieces)
  {
    if |parts| > 1 {
      DistsJoin(parts[1..], pieces[1..]);
    }
  }

  /** The segments of the example Packages URL, joined. A step of the literal example proof, split out to keep each proof within the resource limit. */
  lemma MainSegments(dist: string)
    requires dist == "bionic" || dist == "xenial"
    ensures PyText.JoinWith(["dists", dist, "main", "binary-amd64", "Packages"], "/")
         == "dists/" + (dist + "/" + ("main/" + ("binary-amd64/" + "Packages")))
  {
    var pieces := ["dists/", dist + "/", "main/", "binary-amd64/", "Packages"];
    DistsJoin(["dists", dist, "main", "binary-amd64", "Packages"], pieces);
    assert Chain(pieces[3..]) == "binary-amd64/" + "Packages";
    assert Chain(pieces[2..]) == "main/" + ("binary-amd64/" + "Packages");
    assert Chain(pieces[1..]) == dist + "/" + ("main/" + ("binary-amd64/" + "Packages"));
  }

  /**
   * `release_file`: the text at the Release URL, stripped. A URL that does
   * not open raises URLError and a body that does not decode raises too.
   */
  function Release(repo: Repository, fetch: Fetch.Oracle): (r: Result<AptRelease.ReleaseFile, Exception>)
    ensures r.Success? <==> fetch(ReleaseUrl(repo)).Body?
    ensures r.Success? ==> r.value.content == PyText.Strip(fetch(ReleaseUrl(repo)).text)
    ensures fetch(ReleaseUrl(repo)).Unreachable? ==> r == Failure(URLError(ReleaseUrl(repo)))
    ensures fetch(ReleaseUrl(repo)).Corrupt? ==> r == Failure(DecodeError(ReleaseUrl(repo)))
  {
    var text :- Fetch.Download(fetch, ReleaseUrl(repo));
    Success(AptRelease.NewReleaseFile(text))
  }

  /**
   * `all_components`: the Components tokens of the Release file. It fails
   * when the download does, or with the KeyError of a missing Components line.
   */
  function AllComponents(repo: Repository, fetch: Fetch.Oracle): (r: Result<seq<string>, Exception>)
    ensures Release(repo, fetch).Failure? ==> r == Failure(Release(repo, fetch).error)
    ensures Release(repo, fetch).Success? ==> r == AptRelease.Listed(Release(repo, fetch).value, AptRelease.Components)
    ensures r.Success? ==> forall k :: 0 <= k < |r.value| ==> r.value[k] != [] && PyText.NoSpace(r.value[k])
  {
    var release :- Release(repo, fetch);
    AptRelease.Listed(release, AptRelease.Components)
  }

  /** A Release file that opens with a Components line gives those components. */
  lemma AllComponentsOfLine(repo: Repository, fetch: Fetch.Oracle, names: seq<string>, rest: string)
    requires forall k :: 0 <= k < |names| ==> names[k] != [] && PyText.NoSpace(names[k])
    requires names != [] && rest != [] && !PyText.IsSpace(rest[|rest| - 1])
    requires fetch(ReleaseUrl(repo)) == Fetch.Body("Components: " + PyText.JoinWith(names, " ") + "\n" + rest)
    ensures AllComponents(repo, fetch) == Success(names)
  {
    var text := "Components: " + PyText.JoinWith(names, " ") + "\n" + rest;
    assert Release(repo, fetch) == Success(AptRelease.NewReleaseFile(text));
    ComponentsLine(names, rest);
  }

  lemma ComponentsLine(names: seq<string>, rest: string)
    requires forall k :: 0 <= k < |names| ==> names[k] != [] && PyText.NoSpace(names[k])
    requires rest != [] && !PyText.IsSpace(rest[|rest| - 1])
    ensures AptRelease.Listed(AptRelease.NewReleaseFile("Components: " + PyText.JoinWith(names, " ") + "\n" + rest), AptRelease.Components)
         == Success(names)
  {
    var line := PyText.JoinWith(names, " ");
    ComponentsText(line, rest);
    AptRelease.ListedOfLine([], AptRelease.Components, names, rest);
  }

  /** A text that opens with "Components: " and ends in a non-space is stored unchanged. */
  lemma ComponentsText(line: string, rest: string)
    requires rest != [] && !PyText.IsSpace(rest[|rest| - 1])
    ensures AptRelease.NewReleaseFile("Components: " + line + "\n" + rest)
         == AptRelease.ReleaseFile([] + AptRelease.ListedKey(AptRelease.Components) + ": " + line + "\n" + rest)
  {
    var text := "Components: " + line + "\n" + rest;
    assert text[|text| - 1] == rest[|rest| - 1];
    assert text[0] == 'C';
    PyText.StripFixed(text);
    var key := AptRelease.ListedKey(AptRelease.Components);
    assert key == "Components";
    assert [] + key + ": " == "Components: ";
  }

  /**
   * `get_binary_packages_by_component(component, arch)`: the packages of the
   * index found by probing the compression suffixes on the Packages URL.
   * When no candidate opens, `PackagesFile(None)` raises AttributeError; a
   * candidate that opens but does not decode raises its DecodeError.
   */
  function ComponentPackages(repo: Repository, fetch: Fetch.Oracle, component: Option<string>, arch: string): (r: Result<seq<AptPackages.BinaryPackage>, Exception>)
    ensures r == Failure(AttributeError)
        <==> forall j :: 0 <= j < |Fetch.Suffixes| ==> fetch(PackagesUrl(repo, component, arch) + Fetch.Suffixes[j]).Unreachable?
    ensures r.Failure? ==> r.error == AttributeError || r.error.DecodeError?
  {
    var base := PackagesUrl(repo, component, arch);
    Fetch.ProbeNone(fetch, base, Fetch.Suffixes);
    var text :- Fetch.Probe(fetch, base, Fetch.Suffixes);
    match text
    case None => Failure(AttributeError)
    case Some(t) => Success(AptPackages.PackagesOf(t))
  }

  /** The first suffix whose URL opens with a body gives the packages of that body. */
  lemma ComponentPackagesFirstOpened(repo: Repository, fetch: Fetch.Oracle, component: Option<string>, arch: string, k: nat, text: string)
    requires k < |Fetch.Suffixes|
    requires forall j :: 0 <= j < k ==> fetch(PackagesUrl(repo, component, arch) + Fetch.Suffixes[j]).Unreachable?
    requires fetch(PackagesUrl(repo, component, arch) + Fetch.Suffixes[k]) == Fetch.Body(text)
    ensures ComponentPackages(repo, fetch, component, arch) == Success(AptPackages.PackagesOf(text))
  {
    Fetch.ProbeFirstOpened(fetch, PackagesUrl(repo, component, arch), Fetch.Suffixes, k);
  }

  /** `get_binary_packages_by_component`, downloading through the suffix loop. */
  method GetBinaryPackagesByComponent(repo: Repository, fetch: Fetch.Oracle, component: Option<string>, arch: string)
    returns (r: Result<seq<AptPackages.BinaryPackage>, Exception>)
    ensures r == ComponentPackages(repo, fetch, component, arch)
  {
    var text := Fetch.DownloadCompressed(fetch, PackagesUrl(repo, component, arch));
    match text {
      case Failure(e) => r := Failure(e);
      case Success(None) => r := Failure(AttributeError);
      case Success(Some(t)) => r := Success(AptPackages.PackagesOf(t));
    }
  }

  /** The components `packages` fetches: None alone for a flat repository, each configured one otherwise. */
  function Targets(repo: Repository): (ts: seq<Option<string>>)
    ensures repo.components == [] ==> ts == [None]
    ensures repo.components != [] ==> |ts| == |repo.components| && forall k :: 0 <= k < |ts| ==> ts[k] == Some(repo.components[k])
  {
    if repo.components == [] then [None]
    else seq(|repo.components|, k requires 0 <= k < |repo.components| => Some(repo.components[k]))
  }

  /** The fetch of one target. */
  function FetchTarget(repo: Repository, fetch: Fetch.Oracle): Option<string> -> Result<seq<AptPackages.BinaryPackage>, Exception> {
    t => ComponentPackages(repo, fetch, t, DefaultArch)
  }

  /** The fetch for each target, in order. */
  function Steps(repo: Repository, fetch: Fetch.Oracle): (rs: seq<Result<seq<AptPackages.BinaryPackage>, Exception>>)
    ensures |rs| == |Targets(repo)|
    ensures forall k :: 0 <= k < |rs| ==> rs[k] == ComponentPackages(repo, fetch, Targets(repo)[k], DefaultArch)
  {
    Results.Map(Targets(repo), FetchTarget(repo, fetch))
  }

  /** The `packages` property. */
  function AllPackages(repo: Repository, fetch: Fetch.Oracle): Result<seq<AptPackages.BinaryPackage>, Exception> {
    Results.ConcatAll(Steps(repo, fetch))
  }

  /** `packages`: the flat fetch for no components, then one fetch per component. */
  method Packages(repo: Repository, fetch: Fetch.Oracle) returns (r: Result<seq<AptPackages.BinaryPackage>, Exception>)
    ensures r == AllPackages(repo, fetch)
  {
    ghost var steps := Steps(repo, fetch);
    var packages: seq<AptPackages.BinaryPackage> := [];
    if |repo.components| == 0 {
      var flat := GetBinaryPackagesByComponent(repo, fetch, None, DefaultArch);
      PackagesFlat(repo, fetch);
      if flat.Failure? {
        return Failure(flat.error);
      }
      packages := packages + flat.value;
      assert packages == flat.value;
      return Success(packages);
    }
    for i := 0 to |repo.components|
      invariant Results.ConcatAll(steps[..i]) == Success(packages)
    {
      var more := GetBinaryPackagesByComponent(repo, fetch, Some(repo.components[i]), DefaultArch);
      assert steps[i] == more;
      Results.ConcatAllStep(steps, i, packages);
      if more.Failure? {
        Results.ConcatAllPrefix(steps, i + 1);
        return Failure(more.error);
      }
      packages := packages + more.value;
    }
    assert steps[..|steps|] == steps;
    return Success(packages);
  }

  /** A flat repository makes exactly one fetch, for component None. */
  lemma PackagesFlat(repo: Repository, fetch: Fetch.Oracle)
    requires repo.components == []
    ensures AllPackages(repo, fetch) == ComponentPackages(repo, fetch, None, DefaultArch)
  {
    ghost var steps := Steps(repo, fetch);
    assert steps[..0] == [];
    Results.ConcatAllStep(steps, 0, []);
    assert steps[..1] == steps;
    if steps[0].Success? {
      assert [] + steps[0].value == steps[0].value;
    }
  }

  /**
   * With components, `packages` succeeds exactly when every component's
   * fetch does, and is then their package lists concatenated in component order.
   */
  lemma PackagesConcatenates(repo: Repository, fetch: Fetch.Oracle)
    requires repo.components != []
    ensures AllPackages(repo, fetch).Success?
        <==> forall k :: 0 <= k < |repo.components| ==> ComponentPackages(repo, fetch, Some(repo.components[k]), DefaultArch).Success?
    ensures AllPackages(repo, fetch).Success? ==> AllPackages(repo, fetch).value == Results.Flatten(Results.Values(Steps(repo, fetch)))
  {
    Results.ConcatAllSuccess(Steps(repo, fetch));
  }

  /** The first component whose fetch fails decides the error; later components are not fetched. */
  lemma PackagesFirstFailure(repo: Repository, fetch: Fetch.Oracle, k: nat)
    requires k < |repo.components|
    requires forall j :: 0 <= j < k ==> ComponentPackages(repo, fetch, Some(repo.components[j]), DefaultArch).Success?
    requires ComponentPackages(repo, fetch, Some(repo.components[k]), DefaultArch).Failure?
    ensures AllPackages(repo, fetch) == Failure(ComponentPackages(repo, fetch, Some(repo.components[k]), DefaultArch).error)
  {
    Results.ConcatAllFirstFailure(Steps(repo, fetch), k);
  }

  /**
   * One turn of the `get_packages_by_name` loop: the package alone when it
   * is named `name`, nothing when it is named otherwise. A stanza without a
   * Package line makes `package.package` raise KeyError.
   */
  function NameStep(p: AptPackages.BinaryPackage, name: string): (r: Result<seq<AptPackages.BinaryPackage>, Exception>)
    ensures r.Success? <==> AptPackages.Required(p, AptPackages.Package).Success?
    ensures r.Success? ==> r.value == [p] || r.value == []
    ensures r.Success? ==> (r.value == [p] <==> AptPackages.Required(p, AptPackages.Package) == Success(name))
    ensures r.Failure? ==> r.error == KeyError(p.content, "Package")
  {
    assert AptPackages.RequiredKey(AptPackages.Package) == "Package";
    var n :- AptPackages.Required(p, AptPackages.Package);
    Success(if n == name then [p] else [])
  }

  /** The loop's turns, one per package, in order. */
  function NameSteps(pkgs: seq<AptPackages.BinaryPackage>, name: string): (rs: seq<Result<seq<AptPackages.BinaryPackage>, Exception>>)
    ensures |rs| == |pkgs| && forall k :: 0 <= k < |pkgs| ==> rs[k] == NameStep(pkgs[k], name)
  {
    Results.Map(pkgs, NameTurn(name))
  }

  /** One turn of the filter for `name`. */
  function NameTurn(name: string): AptPackages.BinaryPackage -> Result<seq<AptPackages.BinaryPackage>, Exception> {
    p => NameStep(p, name)
  }

  /** The `package == name` filter of `get_packages_by_name`, run over the packages in order. */
  function Named(pkgs: seq<AptPackages.BinaryPackage>, name: string): Result<seq<AptPackages.BinaryPackage>, Exception> {
    Results.ConcatAll(NameSteps(pkgs, name))
  }

  /**
   * The filter succeeds exactly when every package has a Package line, and
   * then holds exactly the packages named `name`.
   */
  lemma NamedFilter(pkgs: seq<AptPackages.BinaryPackage>, name: string)
    ensures Named(pkgs, name).Success? <==> forall k :: 0 <= k < |pkgs| ==> AptPackages.Required(pkgs[k], AptPackages.Package).Success?
    ensures Named(pkgs, name).Success? ==>
      forall p :: p in Named(pkgs, name).value <==> p in pkgs && AptPackages.Required(p, AptPackages.Package) == Success(name)
  {
    var rs := NameSteps(pkgs, name);
    Results.ConcatAllSuccess(rs);
    if Named(pkgs, name).Success? {
      var vs := Results.Values(rs);
      forall p ensures p in Named(pkgs, name).value <==> p in pkgs && AptPackages.Required(p, AptPackages.Package) == Success(name) {
        Results.FlattenMember(vs, p);
        if p in Named(pkgs, name).value {
          var j :| 0 <= j < |vs| && p in vs[j];
          StepMember(p, pkgs[j], name);
        }
        if p in pkgs && AptPackages.Required(p, AptPackages.Package) == Success(name) {
          var j :| 0 <= j < |pkgs| && pkgs[j] == p;
          StepMember(p, pkgs[j], name);
          assert p in vs[j];
        }
      }
    }
  }

  /** What one turn keeps. */
  lemma StepMember(p: AptPackages.BinaryPackage, q: AptPackages.BinaryPackage, name: string)
    requires NameStep(q, name).Success?
    ensures p in NameStep(q, name).value <==> p == q && AptPackages.Required(q, AptPackages.Package) == Success(name)
  {
  }

  /**
   * Filtering two blocks of packages: the first block's error, else the
   * second block's error, else the first block's matches followed by the
   * second's.
   */
  lemma NamedAppend(a: seq<AptPackages.BinaryPackage>, b: seq<AptPackages.BinaryPackage>, name: string)
    ensures Named(a, name).Failure? ==> Named(a + b, name) == Named(a, name)
    ensures Named(a, name).Success? && Named(b, name).Failure? ==> Named(a + b, name) == Failure(Named(b, name).error)
    ensures Named(a, name).Success? && Named(b, name).Success? ==> Named(a + b, name) == Success(Named(a, name).value + Named(b, name).value)
  {
    Results.MapAppend(a, b, NameTurn(name));
    Results.ConcatAllAppend(NameSteps(a, name), NameSteps(b, name));
  }

  /** One package: kept exactly when its name is `name`. */
  lemma NamedOne(p: AptPackages.BinaryPackage, name: string)
    requires AptPackages.Required(p, AptPackages.Package).Success?
    ensures AptPackages.Required(p, AptPackages.Package).value == name ==> Named([p], name) == Success([p])
    ensures AptPackages.Required(p, AptPackages.Package).value != name ==> Named([p], name) == Success([])
  {
    var rs := NameSteps([p], name);
    var none: seq<Result<seq<AptPackages.BinaryPackage>, Exception>> := [];
    assert rs[..0] == none;
    Results.ConcatAllStep(rs, 0, []);
    assert rs[..1] == rs;
    var kept: seq<AptPackages.BinaryPackage> := [];
    assert kept + rs[0].value == rs[0].value;
  }

  /** The first package without a Package line decides the error: KeyError of its content and "Package". */
  lemma NamedFirstMissing(pkgs: seq<AptPackages.BinaryPackage>, name: string, k: nat)
    requires k < |pkgs| && AptPackages.Required(pkgs[k], AptPackages.Package).Failure?
    requires forall j :: 0 <= j < k ==> AptPackages.Required(pkgs[j], AptPackages.Package).Success?
    ensures Named(pkgs, name) == Failure(KeyError(pkgs[k].content, "Package"))
  {
    Results.ConcatAllFirstFailure(NameSteps(pkgs, name), k);
  }

  /** `get_packages_by_name(name)`: the filter over this repository's `packages`. */
  function PackagesByName(repo: Repository, fetch: Fetch.Oracle, name: string): (r: Result<seq<AptPackages.BinaryPackage>, Exception>)
    ensures AllPackages(repo, fetch).Failure? ==> r == Failure(AllPackages(repo, fetch).error)
    ensures AllPackages(repo, fetch).Success? ==> r == Named(AllPackages(repo, fetch).value, name)
    ensures r.Success? ==>
      forall p :: p in r.value <==> p in AllPackages(repo, fetch).value && AptPackages.Required(p, AptPackages.Package) == Success(name)
  {
    var pkgs :- AllPackages(repo, fetch);
    NamedFilter(pkgs, name);
    Named(pkgs, name)
  }

  /** The loop of `get_packages_by_name`: appending each package named `name`, in order. */
  method FilterByName(pkgs: seq<AptPackages.BinaryPackage>, name: string) returns (r: Result<seq<AptPackages.BinaryPackage>, Exception>)
    ensures r == Named(pkgs, name)
  {
    ghost var steps := NameSteps(pkgs, name);
    var kept: seq<AptPackages.BinaryPackage> := [];
    for i := 0 to |pkgs|
      invariant Results.ConcatAll(steps[..i]) == Success(kept)
    {
      var turn := NameStep(pkgs[i], name);
      assert steps[i] == turn;
      Results.ConcatAllStep(steps, i, kept);
      if turn.Failure? {
        Results.ConcatAllPrefix(steps, i + 1);
        return Failure(turn.error);
      }
      kept := kept + turn.value;
    }
    assert steps[..|steps|] == steps;
    return Success(kept);
  }

  /** `get_packages_by_name(name)`: reads `packages` once, then filters it. */
  method GetPackagesByName(repo: Repository, fetch: Fetch.Oracle, name: string) returns (r: Result<seq<AptPackages.BinaryPackage>, Exception>)
    ensures r == PackagesByName(repo, fetch, name)
  {
    var all := Packages(repo, fetch);
    if all.Failure? {
      return Failure(all.error);
    }
    r := FilterByName(all.value, name);
  }

  /** `__getitem__(item)` is `get_packages_by_name(item)`. */
  method GetItem(repo: Repository, fetch: Fetch.Oracle, item: string) returns (r: Result<seq<AptPackages.BinaryPackage>, Exception>)
    ensures r == PackagesByName(repo, fetch, item)
  {
    r := GetPackagesByName(repo, fetch, item);
  }

  /**
   * The test of `get_package`'s loop: the name first, and the version only
   * for a package of that name (`and` short-circuits). Each read raises
   * KeyError when its line is missing.
   */
  function Matches(p: AptPackages.BinaryPackage, name: string, version: string): (r: Result<bool, Exception>)
    ensures r.Failure? ==> r.error.KeyError?
  {
    var n :- AptPackages.Required(p, AptPackages.Package);
    if n != name then Success(false)
    else
      var v :- AptPackages.Required(p, AptPackages.Version);
      Success(v == version)
  }

  /**
   * A package matches exactly when it has both the name and the version; one
   * of another name does not match whether or not it has a Version line.
   */
  lemma MatchesMeaning(p: AptPackages.BinaryPackage, name: string, version: string)
    ensures Matches(p, name, version) == Success(true)
        <==> AptPackages.Required(p, AptPackages.Package) == Success(name) && AptPackages.Required(p, AptPackages.Version) == Success(version)
    ensures AptPackages.Required(p, AptPackages.Package).Success? && AptPackages.Required(p, AptPackages.Package).value != name
        ==> Matches(p, name, version) == Success(false)
  {
  }

  /**
   * The loop of `get_package` over a list of packages: the first package
   * matching both name and version; KeyError(name, version) when none does.
   * A read error in the test ends the search with its KeyError.
   */
  function Find(pkgs: seq<AptPackages.BinaryPackage>, name: string, version: string): (r: Result<AptPackages.BinaryPackage, Exception>)
    ensures r.Success? ==> r.value in pkgs && Matches(r.value, name, version) == Success(true)
    ensures r.Failure? ==> r.error.KeyError?
    decreases |pkgs|
  {
    if pkgs == [] then Failure(KeyError(name, version))
    else
      var m :- Matches(pkgs[0], name, version);
      if m then Success(pkgs[0]) else Find(pkgs[1..], name, version)
  }

  /** The first matching package is found, whatever follows it. */
  lemma FindFirst(pkgs: seq<AptPackages.BinaryPackage>, name: string, version: string, k: nat)
    requires k < |pkgs| && Matches(pkgs[k], name, version) == Success(true)
    requires forall j :: 0 <= j < k ==> Matches(pkgs[j], name, version) == Success(false)
    ensures Find(pkgs, name, version) == Success(pkgs[k])
  {
    FindFirstFrom(pkgs, name, version, 0, k);
    assert pkgs[0..] == pkgs;
  }

  /** The search from `i` on stops at the first match at or after `i`. */
  lemma {:induction false} FindFirstFrom(pkgs: seq<AptPackages.BinaryPackage>, name: string, version: string, i: nat, k: nat)
    requires i <= k < |pkgs| && Matches(pkgs[k], name, version) == Success(true)
    requires forall j :: i <= j < k ==> Matches(pkgs[j], name, version) == Success(false)
    ensures Find(pkgs[i..], name, version) == Success(pkgs[k])
    decreases k - i
  {
    var rest := pkgs[i..];
    assert rest[0] == pkgs[i];
    if i == k {
      FindHead(rest, name, version);
    } else {
      assert rest[1..] == pkgs[i + 1..];
      FindSkip(rest, name, version);
      FindFirstFrom(pkgs, name, version, i + 1, k);
    }
  }

  lemma FindHead(pkgs: seq<AptPackages.BinaryPackage>, name: string, version: string)
    requires pkgs != [] && Matches(pkgs[0], name, version) == Success(true)
    ensures Find(pkgs, name, version) == Success(pkgs[0])
  {
  }

  lemma FindSkip(pkgs: seq<AptPackages.BinaryPackage>, name: string, version: string)
    requires pkgs != [] && Matches(pkgs[0], name, version) == Success(false)
    ensures Find(pkgs, name, version) == Find(pkgs[1..], name, version)
  {
  }

  /** A package whose test fails ends the search with that failure. */
  lemma FindFailHead(pkgs: seq<AptPackages.BinaryPackage>, name: string, version: string)
    requires pkgs != [] && Matches(pkgs[0], name, version).Failure?
    ensures Find(pkgs, name, version) == Failure(Matches(pkgs[0], name, version).error)
  {
  }

  /** The search from `i` on ends with the first failing test when no package before it matches. */
  lemma {:induction false} FindFailFrom(pkgs: seq<AptPackages.BinaryPackage>, name: string, version: string, i: nat, k: nat)
    requires i <= k < |pkgs| && Matches(pkgs[k], name, version).Failure?
    requires forall j :: i <= j < k ==> Matches(pkgs[j], name, version) == Success(false)
    ensures Find(pkgs[i..], name, version) == Failure(Matches(pkgs[k], name, version).error)
    decreases k - i
  {
    var rest := pkgs[i..];
    assert rest[0] == pkgs[i];
    if i == k {
      FindFailHead(rest, name, version);
    } else {
      assert rest[1..] == pkgs[i + 1..];
      FindSkip(rest, name, version);
      FindFailFrom(pkgs, name, version, i + 1, k);
    }
  }

  /** The test fails with KeyError(content, 'Package') without a Package line, and with KeyError(content, 'Version') for the name without a Version line. */
  lemma MatchesReadError(p: AptPackages.BinaryPackage, name: string, version: string)
    requires Matches(p, name, version).Failure?
    ensures AptPackages.Required(p, AptPackages.Package).Failure?
        ==> Matches(p, name, version).error == KeyError(p.content, "Package")
    ensures AptPackages.Required(p, AptPackages.Package) == Success(name)
        ==> Matches(p, name, version).error == KeyError(p.content, "Version")
  {
    assert AptPackages.RequiredKey(AptPackages.Package) == "Package";
    assert AptPackages.RequiredKey(AptPackages.Version) == "Version";
  }

  /**
   * A read error before the first match is raised as it is: a package
   * without a Package line raises KeyError(content, 'Package'), not
   * KeyError(name, version); one of that name without a Version line raises
   * KeyError(content, 'Version').
   */
  lemma FindReadError(pkgs: seq<AptPackages.BinaryPackage>, name: string, version: string, k: nat)
    requires k < |pkgs| && Matches(pkgs[k], name, version).Failure?
    requires forall j :: 0 <= j < k ==> Matches(pkgs[j], name, version) == Success(false)
    ensures Find(pkgs, name, version) == Failure(Matches(pkgs[k], name, version).error)
    ensures AptPackages.Required(pkgs[k], AptPackages.Package).Failure?
        ==> Find(pkgs, name, version) == Failure(KeyError(pkgs[k].content, "Package"))
    ensures AptPackages.Required(pkgs[k], AptPackages.Package) == Success(name)
        ==> Find(pkgs, name, version) == Failure(KeyError(pkgs[k].content, "Version"))
  {
    FindFailFrom(pkgs, name, version, 0, k);
    assert pkgs[0..] == pkgs;
    MatchesReadError(pkgs[k], name, version);
  }

  /** With no package matching and no read failing, the search raises KeyError(name, version). */
  lemma {:induction false} FindMiss(pkgs: seq<AptPackages.BinaryPackage>, name: string, version: string)
    requires forall j :: 0 <= j < |pkgs| ==> Matches(pkgs[j], name, version) == Success(false)
    ensures Find(pkgs, name, version) == Failure(KeyError(name, version))
    decreases |pkgs|
  {
    if pkgs != [] {
      assert Matches(pkgs[0], name, version) == Success(false);
      FindMiss(pkgs[1..], name, version);
    }
  }

  /** `get_package(name, version)`: the search over this repository's `packages`. */
  function PackageSpec(repo: Repository, fetch: Fetch.Oracle, name: string, version: string): (r: Result<AptPackages.BinaryPackage, Exception>)
    ensures AllPackages(repo, fetch).Failure? ==> r == Failure(AllPackages(repo, fetch).error)
    ensures AllPackages(repo, fetch).Success? ==> r == Find(AllPackages(repo, fetch).value, name, version)
  {
    var pkgs :- AllPackages(repo, fetch);
    Find(pkgs, name, version)
  }

  /** `get_package`, the early-return loop. */
  method GetPackage(repo: Repository, fetch: Fetch.Oracle, name: string, version: string) returns (r: Result<AptPackages.BinaryPackage, Exception>)
    ensures r == PackageSpec(repo, fetch, name, version)
  {
    var all := Packages(repo, fetch);
    if all.Failure? {
      return Failure(all.error);
    }
    var pkgs := all.value;
    for i := 0 to |pkgs|
      invariant Find(pkgs, name, version) == Find(pkgs[i..], name, version)
    {
      assert pkgs[i..][1..] == pkgs[i + 1..];
      var m := Matches(pkgs[i], name, version);
      if m.Failure? {
        return Failure(m.error);
      }
      if m.value {
        return Success(pkgs[i]);
      }
    }
    return Failure(KeyError(name, version));
  }

  /** `posixpath.join(url, package.filename)` for the package found. */
  function PackageUrlSpec(repo: Repository, fetch: Fetch.Oracle, name: string, version: string): (r: Result<string, Exception>)
    ensures PackageSpec(repo, fetch, name, version).Failure? ==> r == Failure(PackageSpec(repo, fetch, name, version).error)
    ensures PackageSpec(repo, fetch, name, version).Success? ==>
      var p := PackageSpec(repo, fetch, name, version).value;
      AptPackages.Required(p, AptPackages.Filename).Success? ==> r == Success(PosixPath.Join(repo.url, [AptPackages.Required(p, AptPackages.Filename).value]))
    ensures PackageSpec(repo, fetch, name, version).Success? && AptPackages.Required(PackageSpec(repo, fetch, name, version).value, AptPackages.Filename).Failure?
        ==> r == Failure(AptPackages.Required(PackageSpec(repo, fetch, name, version).value, AptPackages.Filename).error)
  {
    var p :- PackageSpec(repo, fetch, name, version);
    var f :- AptPackages.Required(p, AptPackages.Filename);
    Success(PosixPath.Join(repo.url, [f]))
  }

  /** `get_package_url`. */
  method GetPackageUrl(repo: Repository, fetch: Fetch.Oracle, name: string, version: string) returns (r: Result<string, Exception>)
    ensures r == PackageUrlSpec(repo, fetch, name, version)
  {
    var p := GetPackage(repo, fetch, name, version);
    if p.Failure? {
      return Failure(p.error);
    }
    var f := AptPackages.Required(p.value, AptPackages.Filename);
    if f.Failure? {
      return Failure(f.error);
    }
    return Success(PosixPath.Join(repo.url, [f.value]));
  }

  /**
   * A relative Filename lands below the repository URL with one '/' between;
   * an absolute one replaces the URL.
   */
  lemma PackageUrlJoin(url: string, filename: string)
    ensures PosixPath.PlainSegment(filename) ==> PosixPath.Join(url, [filename]) == PosixPath.Lead(url) + filename
    ensures PosixPath.StartsWithSlash(filename) ==> PosixPath.Join(url, [filename]) == filename
  {
    if PosixPath.PlainSegment(filename) {
      PosixPath.JoinPlain(url, [filename]);
    }
    if PosixPath.StartsWithSlash(filename) {
      PosixPath.JoinAbsolute(url, [filename], 0);
      assert [filename][1..] == [];
    }
  }
}
