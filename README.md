# python-apt-repo in Dafny

This project models python-apt-repo, a small Python library that reads Debian APT repositories over HTTP. The library offers:

- `APTRepository`: a base URL, a distribution and a list of components. It builds the URLs of the repository's `Release` file and of its `Packages` indexes, then downloads and parses them.
- `ReleaseFile` and `BinaryPackage`: each reads fields out of the downloaded text with one regular expression, `key: (.*)\n`.
- `PackagesFile`: it strips a downloaded Packages index and splits it at blank lines into one `BinaryPackage` per stanza.
- `APTSources`: a list of repositories, queried one after the other.

Three copies of the library exist in the repository, and all three are modelled:

- `apt_repo/__init__.py`, the current copy. Its modules are `AptValue`, `AptRelease` and `AptPackages` in `apt_metadata.dfy`, `AptRepository` in `apt_client.dfy`, and `AptSources` in `apt_sources.dfy`.
- `apt-repo/__init__.py`, an earlier copy, in `AptRepoLegacy` (`apt_legacy.dfy`). Its `download`, `download_compressed`, `get_value`, `ReleaseFile`, `PackagesFile` and `all_components` do what the current copy's do, so the shared members model them. Its `release_file` builds its URL with `os.path.join` instead of `posixpath.join`; on a POSIX host that is the same function, so `AptRepository.Release` models it too. The module holds what differs:
  - a package has only `package` and `version`;
  - `get_binary_packages_by_component` has no branch for component None, so None raises TypeError in `os.path.join`;
  - `packages` has no flat-repository case;
  - `APTSources` offers only the two listings.
- `repo.py`, the prototype, in `RepoPrototype` (`prototype.dfy`). A missing field raises AttributeError rather than KeyError, and the Release text is not stripped.

Python's own behaviour is modelled where the library depends on it:

- `PyText` (`pytext.dfy`): `str.strip()`, `str.split()`, `str.split(sep)` and `str.join`, with Python's whitespace set.
- `PosixPath` (`posixpath.dfy`): `posixpath.join`, including the rule that an absolute segment discards everything before it.
- `FieldSearch` (`fieldsearch.dfy`): `re.search` with the field pattern. The search is leftmost, and `.` does not cross a newline, so the value stops at the next newline and a final line without one is never matched.
- `Fetch` (`fetch.dfy`): the network, as an oracle that maps a URL to `Unreachable` (urlopen raises URLError), `Body(text)` (the decoded and decompressed text) or `Corrupt` (the URL opens, but decompression or UTF-8 decoding raises).

Two more modules hold shared pieces:

- `Results` (`results.dfy`): the "extend a list in a loop" pattern, and the "first repository not raising KeyError" pattern.
- `Wrappers` and `PyExceptions` (`wrappers.dfy`): Option, Result, and the exceptions the library raises.

Every Python method whose body is a loop is a Dafny `method` with a loop, proved equal to a specification function. The loops are `for` loops, except the suffix loop of `Fetch.DownloadCompressed`, which is a `while` loop. The properties are proved about those functions. The library keeps no mutable state after construction, so there are no classes.

Where the documented intent and the code disagree, the model follows the code:

- Field lookup is not anchored at the start of a line. `Size` is read out of `Installed-Size: …` whenever that line comes first (`AptPackages.SizeShadowed`), and `Depends` out of `Pre-Depends: …` (`AptPackages.DependsReadsPreDepends`).
- The current copy strips the text before searching it. The last line of a Release file or package stanza then has no newline, so a field on that line is never found (`RepoPrototype.FinalLineLostWhenStripped`, `AptValue.FinalLineNeedsNewline`).
- A list field is empty only when its raw value is the empty string. A value of blanks gives `[""]`, not `[]`.
- `from_sources_list_entry` never reaches its `except IndexError` branch. `split_entry[3:]` cannot raise, and an entry with fewer than three words raises IndexError at `split_entry[1]` or `split_entry[2]`.

## Model

| member | source | states |
|---|---|---|
| PyText.Strip | apt_repo/__init__.py:82 | the result is a contiguous slice of the input with no Python whitespace at either end, and every removed character is whitespace |
| PyText.StripFixed | apt_repo/__init__.py:153 | a text with no whitespace at either end is its own strip |
| PyText.StripIdempotent | apt_repo/__init__.py:129-153 | stripping a stanza again in `BinaryPackage` changes nothing after `PackagesFile` stripped it |
| PyText.StripEmpty | apt_repo/__init__.py:129 | the strip is empty exactly when the text is all whitespace |
| PyText.StripFinalNewline | apt_repo/__init__.py:82 | a text with non-whitespace at both ends, followed by a newline, strips to the text without the newline |
| PyText.Words | apt_repo/__init__.py:114 | `str.split()`: every token is non-empty and holds no whitespace; `WordsOfSpread` and `SpreadOfWords` say where it cuts |
| PyText.WordsKeepText | apt_repo/__init__.py:114 | the tokens, concatenated, are the non-whitespace characters of the text in order |
| PyText.WordsOfJoin | apt_repo/__init__.py:411 | splitting tokens joined by single spaces gives back the tokens |
| PyText.WordsSkipSpace | apt_repo/__init__.py:411 | one leading whitespace character does not change the tokens |
| PyText.WordsSkipSpaces | apt_repo/__init__.py:411 | any run of leading whitespace does not change the tokens |
| PyText.WordsOfAllSpace | apt_repo/__init__.py:114 | an all-whitespace text has no tokens |
| PyText.WordsOfWordThen | apt_repo/__init__.py:411 | a token followed by the end or by whitespace is the first token, then the tokens of the rest |
| PyText.WordsOfCons | apt_repo/__init__.py:411 | a token, then any non-empty whitespace run, then more text: that token, then the tokens of the text |
| PyText.Gaps | apt_repo/__init__.py:114 | the whitespace runs of a text number one more than its tokens |
| PyText.WordsOfSpread | apt_repo/__init__.py:114 | tokens laid out between whitespace gaps of any kind and length (non-empty between two tokens, any at the ends) split back into exactly those tokens |
| PyText.SpreadOfWords | apt_repo/__init__.py:114 | every text is its tokens laid out between its gaps, and those gaps separate; with `WordsOfSpread`, the tokens are the only such layout |
| PyText.Split | apt_repo/__init__.py:135 | `str.split(sep)` gives at least one piece |
| PyText.SplitJoin | apt_repo/__init__.py:135 | joining the pieces with the separator gives back the text |
| PyText.SplitPiecesFree | apt_repo/__init__.py:135 | no piece contains the separator |
| PyText.SplitCharCount | apt_repo/__init__.py:231 | splitting on one character gives one piece more than the character occurs |
| PyText.SplitNone | apt_repo/__init__.py:231 | a text without the separator is a single piece |
| PyText.SplitOfJoin | apt_repo/__init__.py:135 | splitting pieces joined by the separator gives back the pieces when none contains it or ends inside it |
| PosixPath.JoinStep | apt_repo/__init__.py:431-436 | one part of the join; `JoinPlain` and `JoinAbsolute` state what the steps build |
| PosixPath.Join | apt_repo/__init__.py:431-436 | `posixpath.join`; its meaning is stated by `JoinPlain`, `JoinAbsolute` and `JoinExtends` |
| PosixPath.JoinPlain | apt_repo/__init__.py:431-436 | joining segments without slashes at their ends puts exactly one '/' between consecutive parts |
| PosixPath.JoinAbsolute | apt_repo/__init__.py:472-479 | a segment starting with '/' discards everything before it |
| PosixPath.JoinExtends | apt_repo/__init__.py:509 | without absolute segments the base is a prefix of the result |
| FieldSearch.SearchFrom | apt_repo/__init__.py:66-67 | the leftmost index from a start where `key: ` is followed by a newline somewhere later, or None when there is none |
| FieldSearch.LineLength | apt_repo/__init__.py:66-67 | the distance to the next newline, with no newline before it |
| FieldSearch.ValueAt | apt_repo/__init__.py:66-67 | the capture of `(.*)` at a match, followed by its newline |
| FieldSearch.Search | apt_repo/__init__.py:66-67 | found exactly when some index matches; the value is the capture at the leftmost match |
| FieldSearch.CaptureUnique | apt_repo/__init__.py:66-67 | a match has one capture |
| FieldSearch.FirstLeadDecides | apt_repo/__init__.py:66-67 | only the first `key: ` counts; the search succeeds exactly when a newline follows it |
| FieldSearch.LastLineNotFound | apt_repo/__init__.py:66-67 | a first `key: ` on a final line without a newline is not found |
| FieldSearch.CaptureOfFirstLead | apt_repo/__init__.py:66-67 | the value is the capture at the first `key: ` |
| FieldSearch.FirstLineFound | apt_repo/__init__.py:66-67 | a text starting with `key: v` and a newline reads v |
| FieldSearch.LeadOfLongerKey | apt_repo/__init__.py:66-67 | wherever `pre + key: ` occurs, `key: ` occurs inside it |
| FieldSearch.ShadowedByLongerKey | apt_repo/__init__.py:66-67 | when `pre + key: ` occurs before every other `key: `, the search for `key` gives exactly the search for `pre + key`, found or not |
| Fetch.Download | apt_repo/__init__.py:20-28 | the body on success; otherwise URLError or the decoding error, each carrying the URL, URLError exactly when the URL does not open |
| Fetch.Probe | apt_repo/__init__.py:31-55 | the only exception the suffix probe lets through is a decoding error |
| Fetch.DownloadCompressed | apt_repo/__init__.py:47-55 | the loop over the suffixes computes the probe |
| Fetch.ProbeFirstOpened | apt_repo/__init__.py:47-55 | the first suffix whose URL opens decides the result, even when its body fails to decode |
| Fetch.ProbeNone | apt_repo/__init__.py:47-55 | None is returned exactly when no candidate URL opens |
| Fetch.ProbeConsults | apt_repo/__init__.py:47-55 | the result depends only on the candidate URLs |
| Fetch.SuffixOrder | apt_repo/__init__.py:40-45 | the candidates are tried plain, then `.xz`, `.gz`, `.bzip2` |
| Results.FlattenMember | apt_repo/__init__.py:544-549 | an element is in the extended list exactly when it is in one of the pieces |
| Results.ConcatAll | apt_repo/__init__.py:450-456 | extending a list over the steps; stated by `ConcatAllSuccess`, `ConcatAllFirstFailure` and `ConcatAllAppend` |
| Results.ConcatAllSuccess | apt_repo/__init__.py:450-456 | extending succeeds exactly when every step does, and is then the steps' lists in order |
| Results.ConcatAllFirstFailure | apt_repo/__init__.py:450-456 | the first failing step's exception propagates |
| Results.ConcatAllAppend | apt_repo/__init__.py:450-456 | extending over two runs of steps is extending over each |
| Results.FirstNonKeyError | apt_repo/__init__.py:559-565 | the first answer that is not a KeyError; stated by `FirstNonKeyErrorWins` and `FirstNonKeyErrorMiss` |
| Results.FirstNonKeyErrorWins | apt_repo/__init__.py:559-565 | the first result that is not a KeyError is returned |
| Results.FirstNonKeyErrorMiss | apt_repo/__init__.py:559-565 | KeyError(name, version) exactly when every repository raises KeyError |
| AptValue.GetValue | apt_repo/__init__.py:58-71 | the capture of the leftmost match, or KeyError(content, key) when there is none; the value holds no newline and the text contains `key: value` and a newline |
| AptValue.ValueOfLine | apt_repo/__init__.py:58-71 | the first line `key: v` with its newline reads v |
| AptValue.FinalLineNeedsNewline | apt_repo/__init__.py:58-71 | `key: v` as the final line raises KeyError without its newline and reads v with it |
| AptRelease.NewReleaseFile | apt_repo/__init__.py:81-82 | the stored content is the stripped text |
| AptRelease.Scalar | apt_repo/__init__.py:84-106 | origin, label, suite, version, codename and date read their key or raise KeyError |
| AptRelease.Listed | apt_repo/__init__.py:108-114 | architectures and components are exactly `Words` of the raw value, so non-empty, space-free and holding all its non-space text; a missing key raises KeyError |
| AptRelease.ListedOfLine | apt_repo/__init__.py:108-114 | a `Components:` line of names joined by spaces reads back those names |
| AptRelease.NoNewlineInJoin | apt_repo/__init__.py:112-114 | names without whitespace, joined by spaces, hold no newline |
| AptPackages.NewBinaryPackage | apt_repo/__init__.py:152-153 | the stored content is the stripped stanza |
| AptPackages.Required | apt_repo/__init__.py:155-165 | package, version and filename read their key or raise KeyError(content, key) |
| AptPackages.Optional | apt_repo/__init__.py:167-222 | the scalar optional fields are None exactly when the key is not found, and the read value otherwise |
| AptPackages.CommaList | apt_repo/__init__.py:224-234 | empty raw value gives []; otherwise one item more than there are commas, each the strip of a comma-free piece of the value |
| AptPackages.StripEach | apt_repo/__init__.py:231 | each item is the strip of its piece, and is its own strip |
| AptPackages.CommaFree | apt_repo/__init__.py:231 | no piece of the comma split, and no strip of one, contains a comma |
| AptPackages.List | apt_repo/__init__.py:223-299 | depends, replaces, breaks, recommends, suggests and conflicts are None exactly when the key is missing, and the comma list of the value otherwise |
| AptPackages.EmptyListField | apt_repo/__init__.py:230-233 | an empty value gives the empty list |
| AptPackages.SizeReadsInstalledSize | apt_repo/__init__.py:301-313 | a stanza starting with `Installed-Size:` gives that value for both `installed_size` and `size` |
| AptPackages.SizeInsideInstalledSize | apt_repo/__init__.py:309-313 | the pattern for `Size` matches inside `Installed-Size:` |
| AptPackages.SizeShadowed | apt_repo/__init__.py:301-313 | in any stanza where `Installed-Size: ` comes before every other `Size: `, `size` equals `installed_size`, both missing or both the same value |
| AptPackages.DependsReadsPreDepends | apt_repo/__init__.py:224-234 | in any stanza where `Pre-Depends: ` comes before every other `Depends: `, `depends` is missing exactly when Pre-Depends is, and is otherwise the comma list of the Pre-Depends value |
| AptPackages.Stanzas | apt_repo/__init__.py:135-139 | one package per non-empty fragment; stated by `StanzasOfNonEmpty` and `StanzasOfStripped` |
| AptPackages.PackagesOf | apt_repo/__init__.py:128-141 | `PackagesFile(content).packages`; stated by `PackagesOfBlank`, `PackagesOfJoin` and `PackagesOfLayout` |
| AptPackages.Packages | apt_repo/__init__.py:131-141 | the loop over the blank-line-separated fragments, skipping empty ones, computes the package list |
| AptPackages.PackagesOfBlank | apt_repo/__init__.py:128-141 | an all-whitespace file has no packages |
| AptPackages.StanzasOfNonEmpty | apt_repo/__init__.py:135-139 | with no empty fragment every fragment becomes one package, in order |
| AptPackages.StanzasOfStripped | apt_repo/__init__.py:135-139 | stripped non-empty fragments become packages with exactly that content |
| AptPackages.PackagesOfJoin | apt_repo/__init__.py:128-141 | stanzas joined by exactly one blank line, each trimmed and without a blank line inside, parse back to one package per stanza with that content |
| AptPackages.PackagesOfLayout | apt_repo/__init__.py:128-141 | trimmed stanzas without a blank line inside, separated by runs of blank lines of any length and surrounded by any whitespace, parse to exactly one package per stanza, in order, the k-th holding the k-th stanza |
| AptPackages.LayoutStanzas | apt_repo/__init__.py:135-139 | splitting such a layout at every "\n\n" and skipping the empty fragments gives one package per stanza: a pair of surplus newlines yields an empty fragment, and a single one is stripped from the next stanza |
| AptPackages.StanzasCons | apt_repo/__init__.py:135-139 | the fragment loop read from the front: an empty fragment adds no package, any other adds the package of its stripped text |
| PyText.StripSurrounded | apt_repo/__init__.py:129 | `strip()` removes exactly the whitespace around a text that starts and ends with non-whitespace |
| AptRepository.FromSourcesListEntry | apt_repo/__init__.py:401-421 | IndexError exactly when the entry has fewer than three words; otherwise url, dist and components are the words after the first |
| AptRepository.EntryRoundTrip | apt_repo/__init__.py:401-421 | an entry written from a kind, url, dist and components parses back to the same repository |
| AptRepository.EntryWords | apt_repo/__init__.py:411-419 | the words of such an entry are its kind, url, dist and components |
| AptRepository.EntrySpreadRoundTrip | apt_repo/__init__.py:401-421 | the same for any whitespace layout: tabs, runs of blanks, leading and trailing whitespace |
| AptRepository.UbuntuEntry | apt_repo/test_apt_repo.py:6-11 | the Ubuntu entry gives url, dist "bionic" and components ["main"] |
| AptRepository.JenkinsEntry | apt_repo/test_apt_repo.py:36-41 | the Jenkins entry gives a flat repository with no components |
| AptRepository.ReleaseUrl | apt_repo/__init__.py:431-436 | the Release URL; stated by `ReleaseUrlShape` |
| AptRepository.PackagesUrl | apt_repo/__init__.py:465-479 | the index URL; stated by `FlatPackagesUrl`, `ComponentPackagesUrl` and `AbsoluteComponentUrl` |
| AptRepository.ReleaseUrlShape | apt_repo/__init__.py:428-436 | the Release URL is `dists/<dist>/Release` below the base with one '/' at each joint; an absolute dist replaces the base |
| AptRepository.FlatPackagesUrl | apt_repo/__init__.py:466-470 | with no component the index is `<dist>/Packages` below the base |
| AptRepository.ComponentPackagesUrl | apt_repo/__init__.py:471-479 | with a component the index is `dists/<dist>/<component>/binary-<arch>/Packages` below the base |
| AptRepository.AbsoluteComponentUrl | apt_repo/__init__.py:471-479 | an absolute component replaces base and dist |
| AptRepository.UbuntuReleaseUrl | apt_repo/__init__.py:428-436 | the concrete Release URL of the Ubuntu entry |
| AptRepository.UbuntuPackagesUrl | apt_repo/__init__.py:471-479 | the concrete `main` index URL of the Ubuntu entry |
| AptRepository.JenkinsPackagesUrl | apt_repo/__init__.py:466-470 | the concrete flat index URL of the Jenkins entry |
| AptRepository.Release | apt_repo/__init__.py:428-440 | success exactly when the Release URL gives a body, whose stripped text is the content; URLError or the decoding error otherwise |
| AptRepository.AllComponents | apt_repo/__init__.py:423-426 | the Components tokens of the downloaded Release file, each non-empty and space-free, or the download's exception |
| AptRepository.AllComponentsOfLine | apt_repo/__init__.py:423-440 | a Release file opening with a Components line followed by more text gives exactly those names |
| AptRepository.ComponentsLine | apt_repo/__init__.py:112-114 | the same over the Release file directly |
| AptRepository.ComponentsText | apt_repo/__init__.py:81-82 | stripping such a Release text leaves its Components line untouched |
| AptRepository.ComponentPackages | apt_repo/__init__.py:458-483 | AttributeError exactly when no candidate index URL opens (`None.strip()`), and otherwise only a decoding error can fail |
| AptRepository.ComponentPackagesFirstOpened | apt_repo/__init__.py:458-483 | when the k-th candidate is the first to open, the packages are those of its text |
| AptRepository.GetBinaryPackagesByComponent | apt_repo/__init__.py:458-483 | the method computes the per-component listing |
| AptRepository.Targets | apt_repo/__init__.py:450-454 | no components means one flat download; otherwise one per component in order |
| AptRepository.Steps | apt_repo/__init__.py:450-454 | step k downloads target k |
| AptRepository.AllPackages | apt_repo/__init__.py:442-456 | the `packages` property; stated by `PackagesFlat`, `PackagesConcatenates` and `PackagesFirstFailure` |
| AptRepository.Packages | apt_repo/__init__.py:442-456 | the extending loop computes the repository's package list |
| AptRepository.PackagesFlat | apt_repo/__init__.py:451-452 | without components the list is the flat index's |
| AptRepository.PackagesConcatenates | apt_repo/__init__.py:453-454 | with components the list succeeds exactly when every component does, and is then their lists in order |
| AptRepository.PackagesFirstFailure | apt_repo/__init__.py:453-454 | the first failing component's exception propagates |
| AptRepository.NameStep | apt_repo/__init__.py:521-523 | one turn of the filter keeps the package exactly when its name is `name`, and raises KeyError when it has no Package line |
| AptRepository.NameSteps | apt_repo/__init__.py:521-523 | one turn per package, in order |
| AptRepository.Named | apt_repo/__init__.py:519-525 | the filter loop's result; stated by `NamedFilter`, `NamedAppend`, `NamedOne` and `NamedFirstMissing` |
| AptRepository.NamedFilter | apt_repo/__init__.py:511-525 | the filter succeeds exactly when every package has a Package line, and then holds exactly the packages named `name` |
| AptRepository.StepMember | apt_repo/__init__.py:521-523 | a turn's output holds only its package, and only when the name matches |
| AptRepository.NamedAppend | apt_repo/__init__.py:511-525 | filtering two lists one after the other is filtering each |
| AptRepository.NamedOne | apt_repo/__init__.py:521-523 | a single package is kept exactly when its name matches |
| AptRepository.NamedFirstMissing | apt_repo/__init__.py:521-523 | the first package without a Package line raises its KeyError |
| AptRepository.PackagesByName | apt_repo/__init__.py:511-525 | the listing's exception, or exactly the listed packages named `name` |
| AptRepository.FilterByName | apt_repo/__init__.py:519-525 | the filtering loop computes the filter |
| AptRepository.GetPackagesByName | apt_repo/__init__.py:511-525 | the method reads `packages`, then filters |
| AptRepository.GetItem | apt_repo/__init__.py:398-399 | indexing is `get_packages_by_name` |
| AptRepository.Matches | apt_repo/__init__.py:494 | the test fails only with a KeyError |
| AptRepository.MatchesReadError | apt_repo/__init__.py:155-160 | a failing test carries the missing key: KeyError(content, 'Package') when the Package line is missing, KeyError(content, 'Version') when the name matches and the Version line is missing |
| AptRepository.MatchesMeaning | apt_repo/__init__.py:494 | true exactly when name and version both read as given; a different name is false without reading the version |
| AptRepository.Find | apt_repo/__init__.py:493-497 | a found package is in the list and matches; otherwise a KeyError |
| AptRepository.FindFirst | apt_repo/__init__.py:493-497 | the first match is returned |
| AptRepository.FindFirstFrom | apt_repo/__init__.py:493-497 | the first match at or after a position is returned from the rest of the list |
| AptRepository.FindHead | apt_repo/__init__.py:493-495 | a matching first package is returned |
| AptRepository.FindSkip | apt_repo/__init__.py:493-495 | a non-matching first package is passed over |
| AptRepository.FindFailFrom | apt_repo/__init__.py:493-497 | an unreadable package reached before any match ends the search with its error |
| AptRepository.FindReadError | apt_repo/__init__.py:493-497 | when the first package not rejected cannot be read, the search raises that package's error: KeyError(content, 'Package') without a Package line, and KeyError(content, 'Version') when the name matches but there is no Version line |
| AptRepository.FindMiss | apt_repo/__init__.py:493-497 | with no match the search raises KeyError(name, version) |
| AptRepository.PackageSpec | apt_repo/__init__.py:485-497 | the listing's exception, or the search over the listing |
| AptRepository.GetPackage | apt_repo/__init__.py:485-497 | the early-return loop computes the search |
| AptRepository.PackageUrlSpec | apt_repo/__init__.py:499-509 | the search's exception; else the Filename's KeyError; else the Filename joined to the base URL |
| AptRepository.GetPackageUrl | apt_repo/__init__.py:499-509 | the method computes the package URL |
| AptRepository.PackageUrlJoin | apt_repo/__init__.py:509 | a relative Filename lands below the base with one '/' between; an absolute one replaces the base |
| AptSources.PackageSteps | apt_repo/__init__.py:544-549 | one listing per repository, in order |
| AptSources.AllPackages | apt_repo/__init__.py:541-549 | the collection's `packages`; stated by `PackagesConcatenate` and `PackagesFirstFailure` |
| AptSources.Packages | apt_repo/__init__.py:541-549 | the extending loop computes the collection's package list |
| AptSources.PackagesConcatenate | apt_repo/__init__.py:541-549 | succeeds exactly when every repository's listing does, and is then their lists in order |
| AptSources.PackagesFirstFailure | apt_repo/__init__.py:541-549 | the first failing repository's exception propagates |
| AptSources.NameSteps | apt_repo/__init__.py:592-596 | one by-name listing per repository, in order |
| AptSources.PackagesByName | apt_repo/__init__.py:583-596 | the collection's by-name listing; stated by `PackagesByNameConcatenate` and `ByNameIsFilter` |
| AptSources.GetPackagesByName | apt_repo/__init__.py:583-596 | the extending loop computes the collection's by-name listing |
| AptSources.GetItem | apt_repo/__init__.py:538-539 | indexing is `get_packages_by_name` |
| AptSources.PackagesByNameConcatenate | apt_repo/__init__.py:583-596 | succeeds exactly when every repository's by-name listing does, and is then their lists in order |
| AptSources.ByNameIsFilter | apt_repo/__init__.py:583-596 | when the collection's package list can be read, its by-name listing is that list filtered by name |
| AptSources.SplitLast | apt_repo/__init__.py:544-549 | the listings of a collection are those of all but the last repository, then the last one's |
| AptSources.PackageTries | apt_repo/__init__.py:559-563 | one `get_package` per repository, in order |
| AptSources.Package | apt_repo/__init__.py:551-565 | the first-answer search; stated by `PackageFirstWins` and `PackageMiss` |
| AptSources.GetPackage | apt_repo/__init__.py:551-565 | the loop computes the first-answer search |
| AptSources.PackageFirstWins | apt_repo/__init__.py:559-563 | the first repository not raising KeyError answers, with its package or its other exception |
| AptSources.PackageMiss | apt_repo/__init__.py:565 | KeyError(name, version) exactly when every repository raises KeyError |
| AptSources.UrlTries | apt_repo/__init__.py:575-579 | one `get_package_url` per repository, in order |
| AptSources.PackageUrl | apt_repo/__init__.py:567-581 | the first-answer URL; stated by `PackageUrlFirstWins` and `PackageUrlMiss` |
| AptSources.GetPackageUrl | apt_repo/__init__.py:567-581 | the loop computes the first-answer URL |
| AptSources.PackageUrlFirstWins | apt_repo/__init__.py:575-579 | the first repository not raising KeyError answers |
| AptSources.PackageUrlMiss | apt_repo/__init__.py:581 | KeyError(name, version) exactly when every repository raises KeyError |
| AptSources.MissingFilenameFallsThrough | apt_repo/__init__.py:575-579 | a found package without Filename raises KeyError, so the next repositories are asked |
| AptRepoLegacy.Field | apt-repo/__init__.py:106-116 | package and version read their key or raise KeyError |
| AptRepoLegacy.FieldAgrees | apt-repo/__init__.py:106-116 | they read exactly what the current copy's `package` and `version` read |
| AptRepoLegacy.ComponentPackages | apt-repo/__init__.py:154-166 | TypeError exactly when the component is None; for a named component AttributeError exactly when no candidate index URL opens, and otherwise only a decoding error |
| AptRepoLegacy.ComponentAgrees | apt-repo/__init__.py:154-166 | on a named component the two copies give the same result; on None they differ |
| AptRepoLegacy.GetBinaryPackagesByComponent | apt-repo/__init__.py:154-166 | the method computes the earlier per-component listing |
| AptRepoLegacy.Steps | apt-repo/__init__.py:146-152 | one download per configured component, in order |
| AptRepoLegacy.AllPackages | apt-repo/__init__.py:146-152 | the earlier `packages`; stated by `NoComponentsNoPackages`, `AgreesWithCurrent` and `FlatRepositoryDiffers` |
| AptRepoLegacy.Packages | apt-repo/__init__.py:146-152 | the extending loop computes the earlier `packages` |
| AptRepoLegacy.NoComponentsNoPackages | apt-repo/__init__.py:146-152 | without components nothing is downloaded and the list is empty |
| AptRepoLegacy.AgreesWithCurrent | apt-repo/__init__.py:146-152 | with components the earlier `packages` is the current one |
| AptRepoLegacy.FlatRepositoryDiffers | apt-repo/__init__.py:146-152 | for a flat repository with a non-empty index the earlier copy lists nothing and the current one lists the index |
| AptRepoLegacy.PackagesByName | apt-repo/__init__.py:168-176 | the listing's exception, or exactly the listed packages named `name` |
| AptRepoLegacy.GetPackagesByName | apt-repo/__init__.py:168-176 | the method reads `packages` once, then filters |
| AptRepoLegacy.SourcesPackages | apt-repo/__init__.py:183-190 | the earlier collection's list; stated by `SourcesConcatenate` |
| AptRepoLegacy.SourcesByName | apt-repo/__init__.py:192-198 | the earlier collection's by-name listing; stated by `SourcesConcatenate` |
| AptRepoLegacy.GetSourcesPackages | apt-repo/__init__.py:183-190 | the extending loop computes the collection's list |
| AptRepoLegacy.GetSourcesByName | apt-repo/__init__.py:192-198 | the extending loop computes the collection's by-name listing |
| AptRepoLegacy.SourcesConcatenate | apt-repo/__init__.py:183-198 | both listings succeed exactly when every repository's does, and are then their lists in order |
| RepoPrototype.GetValue | repo.py:38-41 | found exactly when some index matches, the leftmost capture, and AttributeError otherwise |
| RepoPrototype.GetValueAgrees | repo.py:38-41 | the same values as the later copies; only the exception for a miss differs |
| RepoPrototype.NewReleaseFile | repo.py:45-46 | the text is kept as given |
| RepoPrototype.Scalar | repo.py:48-70 | the scalar Release fields read their key or raise AttributeError |
| RepoPrototype.Listed | repo.py:72-78 | architectures and components are exactly `Words` of the raw value, non-empty and space-free, or AttributeError |
| RepoPrototype.ComponentsLineReads | repo.py:38-41 | a one-line Components text is read with its final newline and missed without it |
| RepoPrototype.FinalLineKept | repo.py:44-78 | the unstripped one-line Release text gives its components |
| RepoPrototype.FinalLineLostWhenStripped | apt_repo/__init__.py:81-114 | the same text in the current copy loses its newline and raises KeyError |
| RepoPrototype.Field | repo.py:90-100 | package and version read their key or raise AttributeError |
| RepoPrototype.ReleaseUrl | repo.py:112-118 | the same Release URL as the current copy's |
| RepoPrototype.Release | repo.py:112-122 | success exactly when the Release URL gives a body, kept unstripped; URLError or the decoding error otherwise |
| RepoPrototype.Components | repo.py:108-110 | the Components tokens of the downloaded Release file, or its exception |
| RepoPrototype.ComponentsOfRelease | repo.py:108-122 | a one-line Components Release file gives its names |
| RepoPrototype.BinaryPackagesUrl | repo.py:124-132 | the same index URL as the current copy's for that component |
| RepoPrototype.BinaryPackagesText | repo.py:124-134 | the printed probe result is None exactly when no candidate opens, and fails only with a decoding error |
| RepoPrototype.GetBinaryPackages | repo.py:124-134 | the method computes what is printed |
| RepoPrototype.PrintedIndexParsed | repo.py:124-134 | a printed text is the index whose packages the current copy lists for that component |
| RepoPrototype.XenialMainUrl | repo.py:136-137 | the module-level example asks for the `main` amd64 index of xenial |

## Left out

- The fetch oracle is one fixed function of the URL, while the source downloads again on every access to `packages`, `sources` or a lookup. `AptSources.ByNameIsFilter`, `AptRepoLegacy.AgreesWithCurrent`, `AptRepoLegacy.FlatRepositoryDiffers` and the `APTSources` lookups therefore hold only for a repository that does not change between downloads.
- The network, decompression (`lzma`, `gzip`, `bz2`) and UTF-8 decoding are folded into the fetch oracle. A decompression or decoding error is the single `DecodeError`, and no other exception from `urlopen` or `read` is modelled.
- The regular-expression engine is modelled only for the pattern `key: (.*)\n`. Keys containing regular-expression metacharacters are searched literally.
- `os.path.join` in the earlier copies is modelled as `posixpath.join`, as on a POSIX host.
- `print` in `repo.py` is not modelled. `GetBinaryPackages` returns what would be printed, and the module-level `print(...)` of its None result is left out.
- `PackagesFile` in `repo.py` only stores its argument and offers nothing to model.
- The library's constructors appear only as datatype constructors, so a string passed as `components`, as the class docstring's example does, is not modelled.
- The `arch` parameter of the `packages` property is never different from `'amd64'`, because a property takes no arguments. The model fixes it to `DefaultArch`.
- `setup.py` is packaging metadata and is not part of this model.
- AptRepository.ComponentPackages: does not state the packages' contents for an opened index in its own contract; `ComponentPackagesFirstOpened`, `AptPackages.PackagesOfJoin` and `AptPackages.PackagesOfLayout` state them.
