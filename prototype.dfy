/**
 * The prototype (`repo.py`): the same field pattern, but a missing field
 * surfaces as the AttributeError of `None.group(1)`, and the Release file
 * keeps its text as downloaded, trailing newline included.
 */
module RepoPrototype {

  import opened Wrappers
  import opened PyExceptions
  import PyText
  import PosixPath
  import FieldSearch
  import Fetch
  import AptValue
  import AptRelease
  import AptPackages
  import AptRepoLegacy
  import AptRepository
  import Results

  /**
   * `get_value(content, key)`: the capture of the leftmost match, or the
   * AttributeError raised when `re.search` returns None.
   */
  function GetValue(content: string, key: string): (r: Result<string, Exception>)
    ensures r.Success? <==> FieldSearch.Found(content, key)
    ensures r.Success? ==> FieldSearch.LeftmostCapture(content, key, r.value)
    ensures r.Failure? ==> r.error == AttributeError
  {
    match FieldSearch.Search(content, key)
    case Some(v) => Success(v)
    case None => Failure(AttributeError)
  }

  /** The prototype reads the same values as the later copies; only the exception for a miss differs. */
  lemma GetValueAgrees(content: string, key: string)
    ensures GetValue(content, key).Success? <==> AptValue.GetValue(content, key).Success?
    ensures GetValue(content, key).Success? ==> GetValue(content, key) == AptValue.GetValue(content, key)
    ensures GetValue(content, key).Failure? ==> AptValue.GetValue(content, key) == Failure(KeyError(content, key))
  {
  }

  /** `ReleaseFile(content)`: the text is kept as given. */
  function NewReleaseFile(raw: string): (r: AptRelease.ReleaseFile)
    ensures r.content == raw
  {
    AptRelease.ReleaseFile(raw)
  }

  /** `origin`, `label`, `suite`, `version`, `codename`, `date`, `description`. */
  function Scalar(r: AptRelease.ReleaseFile, f: AptRelease.ScalarField): (v: Result<string, Exception>)
    ensures v.Success? <==> FieldSearch.Found(r.content, AptRelease.ScalarKey(f))
    ensures v.Success? ==> FieldSearch.LeftmostCapture(r.content, AptRelease.ScalarKey(f), v.value)
    ensures v.Failure? ==> v.error == AttributeError
  {
    GetValue(r.content, AptRelease.ScalarKey(f))
  }

  /** `architectures` and `components`: the whitespace-separated tokens of the value. */
  function Listed(r: AptRelease.ReleaseFile, f: AptRelease.ListedField): (v: Result<seq<string>, Exception>)
    ensures v.Success? <==> FieldSearch.Found(r.content, AptRelease.ListedKey(f))
    ensures v.Failure? ==> v.error == AttributeError
    ensures v.Success? ==> forall k :: 0 <= k < |v.value| ==> v.value[k] != [] && PyText.NoSpace(v.value[k])
    ensures v.Success? ==> Results.Flatten(v.value) == PyText.NonSpace(GetValue(r.content, AptRelease.ListedKey(f)).value)
    ensures v.Success? ==> v.value == PyText.Words(GetValue(r.content, AptRelease.ListedKey(f)).value)
  {
    var raw :- GetValue(r.content, AptRelease.ListedKey(f));
    PyText.WordsKeepText(raw);
    Success(PyText.Words(raw))
  }

  /** The field pattern on a one-line Components text, with and without its final newline. */
  lemma ComponentsLineReads(line: string)
    requires line != [] && '\n' !in line
    ensures FieldSearch.Search("Components: " + line + "\n", "Components") == Some(line)
    ensures FieldSearch.Search("Components: " + line, "Components") == None
  {
    var pre: string := [];
    assert pre + "Components" + ": " + line == "Components: " + line;
    AptValue.FinalLineNeedsNewline(pre, "Components", line);
  }

  /** The prototype keeps the final newline and so reads the components of a one-line text. */
  lemma FinalLineKept(line: string)
    requires line != [] && '\n' !in line
    ensures Listed(NewReleaseFile("Components: " + line + "\n"), AptRelease.Components) == Success(PyText.Words(line))
  {
    ComponentsLineReads(line);
    assert AptRelease.ListedKey(AptRelease.Components) == "Components";
  }

  /**
   * The later copies strip the text first, and the same one-line text loses
   * its only line: `components` raises KeyError.
   */
  lemma FinalLineLostWhenStripped(line: string)
    requires line != [] && '\n' !in line && !PyText.IsSpace(line[|line| - 1])
    ensures AptRelease.Listed(AptRelease.NewReleaseFile("Components: " + line + "\n"), AptRelease.Components)
         == Failure(KeyError("Components: " + line, "Components"))
  {
    var kept := "Components: " + line;
    assert kept[0] == 'C' && kept[|kept| - 1] == line[|line| - 1];
    PyText.StripFinalNewline(kept);
    ComponentsLineReads(line);
    assert AptRelease.ListedKey(AptRelease.Components) == "Components";
  }

  /** `Package(content)`, kept as given, with its `package` and `version` properties. */
  function Field(p: AptPackages.BinaryPackage, f: AptRepoLegacy.PackageField): (v: Result<string, Exception>)
    ensures v.Success? <==> FieldSearch.Found(p.content, AptRepoLegacy.FieldKey(f))
    ensures v.Success? ==> FieldSearch.LeftmostCapture(p.content, AptRepoLegacy.FieldKey(f), v.value)
    ensures v.Failure? ==> v.error == AttributeError
  {
    GetValue(p.content, AptRepoLegacy.FieldKey(f))
  }

  /** The prototype's `APTRepository(url, dist)`: no configured components. */
  datatype Repository = Repository(url: string, dist: string)

  /** `get_release`'s URL. */
  function ReleaseUrl(repo: Repository): (u: string)
    ensures forall cs: seq<string> {:trigger AptRepository.Repository(repo.url, repo.dist, cs)} ::
      u == AptRepository.ReleaseUrl(AptRepository.Repository(repo.url, repo.dist, cs))
  {
    PosixPath.Join(repo.url, ["dists", repo.dist, "Release"])
  }

  /** `get_release()`: the Release file at the Release URL, unstripped. */
  function Release(repo: Repository, fetch: Fetch.Oracle): (r: Result<AptRelease.ReleaseFile, Exception>)
    ensures r.Success? <==> fetch(ReleaseUrl(repo)).Body?
    ensures r.Success? ==> r.value.content == fetch(ReleaseUrl(repo)).text
    ensures fetch(ReleaseUrl(repo)).Unreachable? ==> r == Failure(URLError(ReleaseUrl(repo)))
    ensures fetch(ReleaseUrl(repo)).Corrupt? ==> r == Failure(DecodeError(ReleaseUrl(repo)))
  {
    var text :- Fetch.Download(fetch, ReleaseUrl(repo));
    Success(NewReleaseFile(text))
  }

  /** The `components` property: the Components tokens of the Release file. */
  function Components(repo: Repository, fetch: Fetch.Oracle): (r: Result<seq<string>, Exception>)
    ensures Release(repo, fetch).Failure? ==> r == Failure(Release(repo, fetch).error)
    ensures Release(repo, fetch).Success? ==> r == Listed(Release(repo, fetch).value, AptRelease.Components)
  {
    var release :- Release(repo, fetch);
    Listed(release, AptRelease.Components)
  }

  /** A Release file holding only a Components line gives those components. */
  lemma ComponentsOfRelease(repo: Repository, fetch: Fetch.Oracle, line: string)
    requires line != [] && '\n' !in line
    requires fetch(ReleaseUrl(repo)) == Fetch.Body("Components: " + line + "\n")
    ensures Components(repo, fetch) == Success(PyText.Words(line))
  {
    FinalLineKept(line);
  }

  /** The URL `get_binary_packages(component, arch)` downloads from; `arch` is "amd64" unless given. */
  function BinaryPackagesUrl(repo: Repository, component: string, arch: string): (u: string)
    ensures forall cs: seq<string> {:trigger AptRepository.Repository(repo.url, repo.dist, cs)} ::
      u == AptRepository.PackagesUrl(AptRepository.Repository(repo.url, repo.dist, cs), Some(component), arch)
  {
    PosixPath.Join(repo.url, ["dists", repo.dist, component, "binary-" + arch, "Packages"])
  }

  /**
   * What `get_binary_packages(component, arch)` prints: the result of the
   * suffix probe at its URL, None when no candidate opens. The method
   * itself returns None.
   */
  function BinaryPackagesText(repo: Repository, fetch: Fetch.Oracle, component: string, arch: string): (r: Result<Option<string>, Exception>)
    ensures r == Success(None)
        <==> forall j :: 0 <= j < |Fetch.Suffixes| ==> fetch(BinaryPackagesUrl(repo, component, arch) + Fetch.Suffixes[j]).Unreachable?
    ensures r.Failure? ==> r.error.DecodeError?
  {
    Fetch.ProbeNone(fetch, BinaryPackagesUrl(repo, component, arch), Fetch.Suffixes);
    Fetch.Probe(fetch, BinaryPackagesUrl(repo, component, arch), Fetch.Suffixes)
  }

  /** `get_binary_packages`: the download through the suffix loop, whose result is printed. */
  method GetBinaryPackages(repo: Repository, fetch: Fetch.Oracle, component: string, arch: string) returns (printed: Result<Option<string>, Exception>)
    ensures printed == BinaryPackagesText(repo, fetch, component, arch)
  {
    printed := Fetch.DownloadCompressed(fetch, BinaryPackagesUrl(repo, component, arch));
  }

  /**
   * The printed text is the Packages index the later copies parse: when it
   * is there, their per-component download lists the packages of that text.
   */
  lemma PrintedIndexParsed(repo: Repository, fetch: Fetch.Oracle, component: string, arch: string, components: seq<string>)
    requires BinaryPackagesText(repo, fetch, component, arch).Success?
    requires BinaryPackagesText(repo, fetch, component, arch).value.Some?
    ensures AptRepository.ComponentPackages(AptRepository.Repository(repo.url, repo.dist, components), fetch, Some(component), arch)
         == Success(AptPackages.PackagesOf(BinaryPackagesText(repo, fetch, component, arch).value.value))
  {
    var current := AptRepository.Repository(repo.url, repo.dist, components);
    assert BinaryPackagesUrl(repo, component, arch) == AptRepository.PackagesUrl(current, Some(component), arch);
  }

  /** The URL of the module-level example, `main` of the xenial distribution. */
  lemma XenialMainUrl()
    ensures BinaryPackagesUrl(Repository("http://archive.ubuntu.com/ubuntu", "xenial"), "main", AptRepository.DefaultArch)
         == "http://archive.ubuntu.com/ubuntu/" + ("dists/" + ("xenial/" + ("main/" + ("binary-amd64/" + "Packages"))))
  {
    var repo := AptRepository.Repository("http://archive.ubuntu.com/ubuntu", "xenial", []);
    assert PosixPath.Lead(repo.url) == "http://archive.ubuntu.com/ubuntu/";
    assert "binary-" + AptRepository.DefaultArch == "binary-amd64";
    AptRepository.ComponentPackagesUrl(repo, "main", AptRepository.DefaultArch);
    AptRepository.MainSegments("xenial");
    assert "xenial" + "/" == "xenial/";
  }
}
