/** `_get_value`, the field reader of the Release and Packages views. */
module AptValue {

  import opened Wrappers
  import opened PyExceptions
  import PyText
  import FieldSearch

  /**
   * What reading `key` from `content` may give: the capture of the leftmost
   * match of the pattern when there is one, KeyError(content, key) when
   * there is none.
   */
  ghost predicate Reads(content: string, key: string, r: Result<string, Exception>) {
    && (r.Success? <==> FieldSearch.Found(content, key))
    && (r.Success? ==> FieldSearch.LeftmostCapture(content, key, r.value))
    && (r.Failure? ==> r.error == KeyError(content, key))
  }

  /** `_get_value(content, key)`. */
  function GetValue(content: string, key: string): (r: Result<string, Exception>)
    ensures Reads(content, key, r)
    ensures r.Success? ==> '\n' !in r.value && PyText.Contains(content, key + ": " + r.value + "\n")
  {
    match FieldSearch.Search(content, key)
    case Some(v) => Success(v)
    case None => Failure(KeyError(content, key))
  }

  /** A field read from the first line it occurs on. */
  lemma ValueOfLine(pre: string, key: string, line: string, rest: string)
    requires '\n' !in line
    requires forall j :: 0 <= j < |pre| ==> !PyText.OccursAt(pre + key + ": " + line + "\n" + rest, FieldSearch.Lead(key), j)
    ensures GetValue(pre + key + ": " + line + "\n" + rest, key) == Success(line)
  {
    var c := pre + key + ": " + line + "\n" + rest;
    var i := |pre|;
    var n := |key| + 2;
    assert c[i..i + n] == FieldSearch.Lead(key);
    assert c[i + n..i + n + |line|] == line;
    assert c[i + n + |line|] == '\n';
    FieldSearch.CaptureOfFirstLead(c, key, i, line);
  }

  /**
   * A field whose `key: ` first occurs on a last line without a newline is
   * missing, and the same text with a newline added has it. Both views
   * strip their text, so this is the fate of every final field line.
   */
  lemma FinalLineNeedsNewline(pre: string, key: string, v: string)
    requires '\n' !in key && '\n' !in v
    requires forall j :: 0 <= j < |pre| ==> !PyText.OccursAt(pre + key + ": " + v, FieldSearch.Lead(key), j)
    ensures GetValue(pre + key + ": " + v, key) == Failure(KeyError(pre + key + ": " + v, key))
    ensures GetValue(pre + key + ": " + v + "\n", key) == Success(v)
  {
    var c := pre + key + ": " + v;
    var i := |pre|;
    var n := |key| + 2;
    assert c[i..i + n] == FieldSearch.Lead(key);
    assert c[i..] == FieldSearch.Lead(key) + v;
    FieldSearch.LastLineNotFound(c, key, i);
    var d := c + "\n";
    forall j | 0 <= j < i ensures !PyText.OccursAt(d, FieldSearch.Lead(key), j) {
      assert !PyText.OccursAt(c, FieldSearch.Lead(key), j);
      assert d[j..j + n] == c[j..j + n];
    }
    assert d[i..i + n] == FieldSearch.Lead(key);
    assert d[i + n..i + n + |v|] == v;
    FieldSearch.CaptureOfFirstLead(d, key, i, v);
  }
}

/** `ReleaseFile`: the view of a distribution's Release file. */
module AptRelease {

  import opened Wrappers
  import opened PyExceptions
  import PyText
  import FieldSearch
  import AptValue
  import Results

  /** The text of a Release file, stripped as the constructor stores it. */
  datatype ReleaseFile = ReleaseFile(content: string)

  /** `ReleaseFile(content)`. */
  function NewReleaseFile(raw: string): (r: ReleaseFile)
    ensures r.content == PyText.Strip(raw)
  {
    ReleaseFile(PyText.Strip(raw))
  }

  /** The properties that return the raw value. */
  datatype ScalarField = Origin | Label | Suite | Version | Codename | Date | Description

  function ScalarKey(f: ScalarField): string {
    match f
    case Origin => "Origin"
    case Label => "Label"
    case Suite => "Suite"
    case Version => "Version"
    case Codename => "Codename"
    case Date => "Date"
    case Description => "Description"
  }

  /** The properties that split the value on whitespace. */
  datatype ListedField = Architectures | Components

  function ListedKey(f: ListedField): string {
    match f
    case Architectures => "Architectures"
    case Components => "Components"
  }

  /** `origin`, `label`, `suite`, `version`, `codename`, `date`, `description`. */
  function Scalar(r: ReleaseFile, f: ScalarField): (v: Result<string, Exception>)
    ensures AptValue.Reads(r.content, ScalarKey(f), v)
  {
    AptValue.GetValue(r.content, ScalarKey(f))
  }

  /**
   * `architectures` and `components`: the whitespace-separated tokens of the
   * value, each non-empty and free of whitespace, which together hold the
   * value's non-whitespace characters in order. A missing key raises.
   */
  function Listed(r: ReleaseFile, f: ListedField): (v: Result<seq<string>, Exception>)
    ensures v.Success? <==> FieldSearch.Found(r.content, ListedKey(f))
    ensures v.Failure? ==> v.error == KeyError(r.content, ListedKey(f))
    ensures v.Success? ==> forall k :: 0 <= k < |v.value| ==> v.value[k] != [] && PyText.NoSpace(v.value[k])
    ensures v.Success? ==> Results.Flatten(v.value) == PyText.NonSpace(AptValue.GetValue(r.content, ListedKey(f)).value)
    ensures v.Success? ==> v.value == PyText.Words(AptValue.GetValue(r.content, ListedKey(f)).value)
  {
    var raw :- AptValue.GetValue(r.content, ListedKey(f));
    PyText.WordsKeepText(raw);
    Success(PyText.Words(raw))
  }

  /** An Architectures or Components line of space-separated names gives those names back. */
  lemma ListedOfLine(pre: string, f: ListedField, names: seq<string>, rest: string)
    requires forall k :: 0 <= k < |names| ==> names[k] != [] && PyText.NoSpace(names[k])
    requires forall j :: 0 <= j < |pre| ==>
      !PyText.OccursAt(pre + ListedKey(f) + ": " + PyText.JoinWith(names, " ") + "\n" + rest, FieldSearch.Lead(ListedKey(f)), j)
    ensures Listed(ReleaseFile(pre + ListedKey(f) + ": " + PyText.JoinWith(names, " ") + "\n" + rest), f) == Success(names)
  {
    NoNewlineInJoin(names);
    AptValue.ValueOfLine(pre, ListedKey(f), PyText.JoinWith(names, " "), rest);
    PyText.WordsOfJoin(names);
  }

  /** Joining whitespace-free words with spaces gives a single line. */
  lemma {:induction false} NoNewlineInJoin(names: seq<string>)
    requires forall k :: 0 <= k < |names| ==> PyText.NoSpace(names[k])
    ensures '\n' !in PyText.JoinWith(names, " ")
  {
    if |names| == 1 {
      assert PyText.IsSpace('\n');
    } else if |names| > 1 {
      NoNewlineInJoin(names[1..]);
      assert PyText.JoinWith(names, " ") == names[0] + " " + PyText.JoinWith(names[1..], " ");
    }
  }
}

/** `BinaryPackage` and `PackagesFile`: the views of a Packages index. */
module AptPackages {

  import opened Wrappers
  import opened PyExceptions
  import PyText
  import FieldSearch
  import AptValue
  import Results

  /** One stanza of a Packages file, stripped as the constructor stores it. */
  datatype BinaryPackage = BinaryPackage(content: string)

  /** `BinaryPackage(content)`. */
  function NewBinaryPackage(raw: string): (p: BinaryPackage)
    ensures p.content == PyText.Strip(raw)
  {
    BinaryPackage(PyText.Strip(raw))
  }

  /** The properties that let a missing key raise. */
  datatype RequiredField = Package | Version | Filename

  /** The scalar properties that give None for a missing key. */
  datatype OptionalField =
    | Maintainer | OriginalMaintainer | Architecture | MultiArch | Homepage | Origin | Priority | Section
    | InstalledSize | Size | MD5Sum | SHA1 | SHA256 | Description | DescriptionMD5 | BuiltUsing
    | Source | Task | Supported

  /** The properties that split a comma-separated relationship field. */
  datatype ListField = Depends | Replaces | Breaks | Recommends | Suggests | Conflicts

  function RequiredKey(f: RequiredField): string {
    match f
    case Package => "Package"
    case Version => "Version"
    case Filename => "Filename"
  }

  function OptionalKey(f: OptionalField): string {
    match f
    case Maintainer => "Maintainer"
    case OriginalMaintainer => "Original-Maintainer"
    case Architecture => "Architecture"
    case MultiArch => "Multi-Arch"
    case Homepage => "Homepage"
    case Origin => "Origin"
    case Priority => "Priority"
    case Section => "Section"
    case InstalledSize => "Installed-Size"
    case Size => "Size"
    case MD5Sum => "MD5Sum"
    case SHA1 => "SHA1"
    case SHA256 => "SHA256"
    case Description => "Description"
    case DescriptionMD5 => "Description-md5"
    case BuiltUsing => "Built-Using"
    case Source => "Source"
    case Task => "Task"
    case Supported => "Supported"
  }

  function ListKey(f: ListField): string {
    match f
    case Depends => "Depends"
    case Replaces => "Replaces"
    case Breaks => "Breaks"
    case Recommends => "Recommends"
    case Suggests => "Suggests"
    case Conflicts => "Conflicts"
  }

  /** `package`, `version`, `filename`: the raw value; a missing key raises KeyError. */
  function Required(p: BinaryPackage, f: RequiredField): (v: Result<string, Exception>)
    ensures AptValue.Reads(p.content, RequiredKey(f), v)
  {
    AptValue.GetValue(p.content, RequiredKey(f))
  }

  /** The scalar properties behind `try ... except KeyError: return None`. */
  function Optional(p: BinaryPackage, f: OptionalField): (v: Option<string>)
    ensures v.None? <==> !FieldSearch.Found(p.content, OptionalKey(f))
    ensures v.None? <==> AptValue.GetValue(p.content, OptionalKey(f)).Failure?
    ensures v.Some? ==> AptValue.GetValue(p.content, OptionalKey(f)) == Success(v.value)
  {
    match AptValue.GetValue(p.content, OptionalKey(f))
    case Success(s) => Some(s)
    case Failure(_) => None
  }

  /**
   * `[d.strip() for d in field.split(',')]` behind `if field:`: nothing for
   * an empty value, otherwise one item more than the value has commas. The
   * items are the comma-free pieces that, joined with commas, make up the
   * value, each stripped.
   */
  function CommaList(v: string): (items: seq<string>)
    ensures v == [] ==> items == []
    ensures v != [] ==> |items| == PyText.CountChar(v, ',') + 1
    ensures forall k :: 0 <= k < |items| ==> ',' !in items[k] && PyText.Strip(items[k]) == items[k]
    ensures v != [] ==> exists parts :: CommaPieces(v, parts, items)
  {
    if v == [] then []
    else
      var parts := PyText.Split(v, ",");
      var items := StripEach(parts);
      PyText.SplitCharCount(v, ',');
      PyText.SplitJoin(v, ",");
      CommaFree(v);
      assert CommaPieces(v, parts, items);
      items
  }

  /** `items` are the pieces of `v` between its commas, each stripped. */
  ghost predicate CommaPieces(v: string, parts: seq<string>, items: seq<string>) {
    && PyText.JoinWith(parts, ",") == v
    && |parts| == |items|
    && forall k :: 0 <= k < |parts| ==> ',' !in parts[k] && items[k] == PyText.Strip(parts[k])
  }

  /** Every piece stripped, each of the results its own strip. */
  function StripEach(parts: seq<string>): (items: seq<string>)
    ensures |items| == |parts|
    ensures forall k :: 0 <= k < |parts| ==> items[k] == PyText.Strip(parts[k]) && PyText.Strip(items[k]) == items[k]
  {
    StripEachFixed(parts);
    Results.Map(parts, PyText.Strip)
  }

  /** Stripping a stripped piece changes nothing. */
  lemma StripEachFixed(parts: seq<string>)
    ensures forall k :: 0 <= k < |parts| ==> PyText.Strip(PyText.Strip(parts[k])) == PyText.Strip(parts[k])
  {
    forall k | 0 <= k < |parts| {
      PyText.StripIdempotent(parts[k]);
    }
  }

  /** The pieces of a comma split have no comma, nor has any slice of them. */
  lemma CommaFree(v: string)
    ensures forall k :: 0 <= k < |PyText.Split(v, ",")| ==> ',' !in PyText.Split(v, ",")[k]
    ensures forall k :: 0 <= k < |PyText.Split(v, ",")| ==> ',' !in PyText.Strip(PyText.Split(v, ",")[k])
  {
    var parts := PyText.Split(v, ",");
    PyText.SplitPiecesFree(v, ",");
    forall k, j | 0 <= k < |parts| && 0 <= j < |parts[k]| ensures parts[k][j] != ',' {
      PyText.OccursAtChar(parts[k], ',', j);
    }
  }

  /**
   * `depends`, `replaces`, `breaks`, `recommends`, `suggests`, `conflicts`:
   * None for a missing key, otherwise the comma list of the raw value.
   */
  function List(p: BinaryPackage, f: ListField): (v: Option<seq<string>>)
    ensures v.None? <==> !FieldSearch.Found(p.content, ListKey(f))
    ensures v.Some? ==>
      AptValue.GetValue(p.content, ListKey(f)).Success? && v.value == CommaList(AptValue.GetValue(p.content, ListKey(f)).value)
  {
    match AptValue.GetValue(p.content, ListKey(f))
    case Success(s) => Some(CommaList(s))
    case Failure(_) => None
  }

  /** An empty relationship field gives the empty list, a missing one None. */
  lemma EmptyListField(pre: string, f: ListField, rest: string)
    requires forall j :: 0 <= j < |pre| ==> !PyText.OccursAt(pre + ListKey(f) + ": " + "" + "\n" + rest, FieldSearch.Lead(ListKey(f)), j)
    ensures List(BinaryPackage(pre + ListKey(f) + ": " + "" + "\n" + rest), f) == Some([])
  {
    AptValue.ValueOfLine(pre, ListKey(f), "", rest);
  }

  /**
   * `size` is not anchored to a line: in a stanza that starts with its
   * Installed-Size line, `size` reads the installed size, whatever Size line
   * follows.
   */
  lemma SizeReadsInstalledSize(c: string, v: string, rest: string)
    requires '\n' !in v
    requires c == "Installed-Size: " + v + "\n" + rest
    ensures Optional(BinaryPackage(c), Size) == Some(v)
    ensures Optional(BinaryPackage(c), InstalledSize) == Some(v)
  {
    assert OptionalKey(Size) == "Size" && OptionalKey(InstalledSize) == "Installed-Size";
    FieldSearch.FirstLineFound(c, "Installed-Size", v, rest);
    SizeInsideInstalledSize(c, v, rest);
  }

  lemma SizeInsideInstalledSize(c: string, v: string, rest: string)
    requires '\n' !in v
    requires c == "Installed-Size: " + v + "\n" + rest
    ensures FieldSearch.Search(c, "Size") == Some(v)
  {
    assert c[..10] == "Installed-";
    forall j | 0 <= j < 10 ensures !PyText.OccursAt(c, FieldSearch.Lead("Size"), j) {
      assert c[j] == c[..10][j];
    }
    assert c[10..16] == FieldSearch.Lead("Size");
    assert c[16..16 + |v|] == v;
    assert c[16 + |v|] == '\n';
    FieldSearch.CaptureOfFirstLead(c, "Size", 10, v);
  }

  /**
   * The same for any stanza: when `Installed-Size: ` occurs before every
   * `Size: ` outside it, `size` reads the installed size, and is missing
   * exactly when the installed size is.
   */
  lemma SizeShadowed(c: string, i: nat)
    requires PyText.OccursAt(c, "Installed-Size: ", i)
    requires forall j :: 0 <= j < i + 10 ==> !PyText.OccursAt(c, "Size: ", j)
    ensures Optional(BinaryPackage(c), Size) == Optional(BinaryPackage(c), InstalledSize)
  {
    assert OptionalKey(Size) == "Size" && OptionalKey(InstalledSize) == "Installed-Size";
    assert "Installed-" + "Size" == "Installed-Size";
    assert FieldSearch.Lead("Installed-Size") == "Installed-Size: ";
    assert FieldSearch.Lead("Size") == "Size: ";
    FieldSearch.ShadowedByLongerKey(c, "Installed-", "Size", i);
  }

  /**
   * `depends` has the same flaw: when `Pre-Depends: ` occurs before every
   * `Depends: ` outside it, `depends` reads the pre-dependencies, comma-split
   * like its own value, and is missing exactly when they are.
   */
  lemma DependsReadsPreDepends(c: string, i: nat)
    requires PyText.OccursAt(c, "Pre-Depends: ", i)
    requires forall j :: 0 <= j < i + 4 ==> !PyText.OccursAt(c, "Depends: ", j)
    ensures FieldSearch.Search(c, "Depends") == FieldSearch.Search(c, "Pre-Depends")
    ensures FieldSearch.Search(c, "Pre-Depends").None? ==> List(BinaryPackage(c), Depends).None?
    ensures FieldSearch.Search(c, "Pre-Depends").Some?
        ==> List(BinaryPackage(c), Depends) == Some(CommaList(FieldSearch.Search(c, "Pre-Depends").value))
  {
    assert ListKey(Depends) == "Depends";
    assert "Pre-" + "Depends" == "Pre-Depends";
    assert FieldSearch.Lead("Pre-Depends") == "Pre-Depends: ";
    assert FieldSearch.Lead("Depends") == "Depends: ";
    FieldSearch.ShadowedByLongerKey(c, "Pre-", "Depends", i);
  }

  /** One package per non-empty fragment, in order. */
  function Stanzas(fragments: seq<string>): seq<BinaryPackage>
    decreases |fragments|
  {
    if fragments == [] then []
    else
      var last := fragments[|fragments| - 1];
      Stanzas(fragments[..|fragments| - 1]) + (if last == [] then [] else [NewBinaryPackage(last)])
  }

  /** What `PackagesFile(content).packages` returns. */
  function PackagesOf(raw: string): seq<BinaryPackage> {
    Stanzas(PyText.Split(PyText.Strip(raw), "\n\n"))
  }

  /** `PackagesFile(content).packages`: the loop over the blank-line-separated fragments. */
  method Packages(raw: string) returns (packages: seq<BinaryPackage>)
    ensures packages == PackagesOf(raw)
  {
    var fragments := PyText.Split(PyText.Strip(raw), "\n\n");
    packages := [];
    for i := 0 to |fragments|
      invariant packages == Stanzas(fragments[..i])
    {
      assert fragments[..i + 1][..i] == fragments[..i];
      if fragments[i] != [] {
        packages := packages + [NewBinaryPackage(fragments[i])];
      }
    }
    assert fragments[..|fragments|] == fragments;
  }

  /** Empty or all-whitespace content holds no package. */
  lemma PackagesOfBlank(raw: string)
    requires PyText.AllSpace(raw)
    ensures PackagesOf(raw) == []
  {
    PyText.StripEmpty(raw);
    PyText.SplitNone([], "\n\n");
    var fragments: seq<string> := [[]];
    assert fragments[..0] == [];
    assert Stanzas(fragments) == [];
  }

  /** A stanza that does not end in whitespace or hold a blank line ends cleanly before the next separator. */
  lemma StanzaEndsCleanly(p: string)
    requires p != [] && !PyText.IsSpace(p[|p| - 1])
    requires !PyText.Contains(p, "\n\n")
    ensures PyText.EndsCleanly(p, "\n\n")
  {
    var q := p + "\n\n";
    forall i | 0 <= i < |p| ensures !PyText.OccursAt(q, "\n\n", i) {
      if i + 2 <= |p| {
        assert q[i..i + 2] == p[i..i + 2];
        assert !PyText.OccursAt(p, "\n\n", i);
      } else {
        assert i == |p| - 1;
        assert q[i] == p[|p| - 1];
        assert q[i..i + 2][0] == q[i];
      }
    }
  }

  /** Non-empty fragments each give one package, in order. */
  lemma {:induction false} StanzasOfNonEmpty(fragments: seq<string>)
    requires forall k :: 0 <= k < |fragments| ==> fragments[k] != []
    ensures Stanzas(fragments) == Results.Map(fragments, NewBinaryPackage)
    decreases |fragments|
  {
    if fragments != [] {
      var n := |fragments| - 1;
      var init := fragments[..n];
      assert forall k :: 0 <= k < n ==> init[k] == fragments[k];
      StanzasOfNonEmpty(init);
      Results.MapSnoc(fragments, NewBinaryPackage);
    }
  }

  /** Stripped, non-empty fragments each give a package holding exactly that fragment. */
  lemma StanzasOfStripped(fragments: seq<string>)
    requires forall k :: 0 <= k < |fragments| ==> fragments[k] != [] && PyText.Strip(fragments[k]) == fragments[k]
    ensures |Stanzas(fragments)| == |fragments|
    ensures forall k :: 0 <= k < |fragments| ==> Stanzas(fragments)[k] == BinaryPackage(fragments[k])
  {
    StanzasOfNonEmpty(fragments);
  }

  /**
   * A Packages file written as stanzas separated by one blank line, each
   * stanza non-empty, without a blank line of its own and without
   * surrounding whitespace, gives one package per stanza, in order, each
   * holding its stanza.
   */
  lemma PackagesOfJoin(stanzas: seq<string>)
    requires forall k :: 0 <= k < |stanzas| ==> stanzas[k] != []
    requires forall k :: 0 <= k < |stanzas| ==> !PyText.IsSpace(stanzas[k][0]) && !PyText.IsSpace(stanzas[k][|stanzas[k]| - 1])
    requires forall k :: 0 <= k < |stanzas| ==> !PyText.Contains(stanzas[k], "\n\n")
    ensures |PackagesOf(PyText.JoinWith(stanzas, "\n\n"))| == |stanzas|
    ensures forall k :: 0 <= k < |stanzas| ==> PackagesOf(PyText.JoinWith(stanzas, "\n\n"))[k] == BinaryPackage(stanzas[k])
  {
    var s := PyText.JoinWith(stanzas, "\n\n");
    if stanzas == [] {
      PackagesOfBlank(s);
    } else {
      JoinedStripped(stanzas);
      AllEndCleanly(stanzas);
      PyText.SplitOfJoin(stanzas, "\n\n");
      assert PackagesOf(s) == Stanzas(stanzas);
      AllStripped(stanzas);
      StanzasOfStripped(stanzas);
    }
  }

  /** Stanzas without a blank line and not ending in whitespace: no separator starts inside one. */
  lemma AllEndCleanly(stanzas: seq<string>)
    requires forall k :: 0 <= k < |stanzas| ==> stanzas[k] != [] && !PyText.IsSpace(stanzas[k][|stanzas[k]| - 1])
    requires forall k :: 0 <= k < |stanzas| ==> !PyText.Contains(stanzas[k], "\n\n")
    ensures forall k :: 0 <= k < |stanzas| ==> PyText.EndsCleanly(stanzas[k], "\n\n")
  {
    forall k | 0 <= k < |stanzas| ensures PyText.EndsCleanly(stanzas[k], "\n\n") {
      StanzaEndsCleanly(stanzas[k]);
    }
  }

  /** Stanzas that neither start nor end with whitespace are their own strips. */
  lemma AllStripped(stanzas: seq<string>)
    requires forall k :: 0 <= k < |stanzas| ==> stanzas[k] != []
    requires forall k :: 0 <= k < |stanzas| ==> !PyText.IsSpace(stanzas[k][0]) && !PyText.IsSpace(stanzas[k][|stanzas[k]| - 1])
    ensures forall k :: 0 <= k < |stanzas| ==> PyText.Strip(stanzas[k]) == stanzas[k]
  {
    forall k | 0 <= k < |stanzas| ensures PyText.Strip(stanzas[k]) == stanzas[k] {
      PyText.StripFixed(stanzas[k]);
    }
  }

  /** Stanzas that neither start nor end with whitespace join into a text that is its own strip. */
  lemma JoinedStripped(stanzas: seq<string>)
    requires stanzas != [] && stanzas[0] != [] && stanzas[|stanzas| - 1] != []
    requires !PyText.IsSpace(stanzas[0][0])
    requires !PyText.IsSpace(stanzas[|stanzas| - 1][|stanzas[|stanzas| - 1]| - 1])
    ensures PyText.Strip(PyText.JoinWith(stanzas, "\n\n")) == PyText.JoinWith(stanzas, "\n\n")
  {
    var s := PyText.JoinWith(stanzas, "\n\n");
    PyText.JoinWithStarts(stanzas, "\n\n");
    PyText.JoinWithEnds(stanzas, "\n\n");
    assert s[0] == stanzas[0][0];
    var last := stanzas[|stanzas| - 1];
    assert s[|s| - 1] == last[|last| - 1];
    PyText.StripFixed(s);
  }

  /** `n` newline characters. */
  function Newlines(n: nat): (s: string)
    ensures |s| == n && forall i :: 0 <= i < n ==> s[i] == '\n'
  {
    seq(n, _ => '\n')
  }

  /**
   * Stanzas written out with a blank line between each two, followed by
   * `extra[k]` further newlines after the k-th separator: runs of blank lines
   * of any length.
   */
  function Layout(stanzas: seq<string>, extra: seq<nat>): string
    requires stanzas == [] || |extra| + 1 == |stanzas|
    decreases |stanzas|
  {
    if stanzas == [] then []
    else if |stanzas| == 1 then stanzas[0]
    else stanzas[0] + ("\n\n" + (Newlines(extra[0]) + Layout(stanzas[1..], extra[1..])))
  }

  /** Stanzas that are non-empty, start and end with non-whitespace, and hold no blank line. */
  ghost predicate Trimmed(stanzas: seq<string>) {
    forall k :: 0 <= k < |stanzas| ==>
      && stanzas[k] != []
      && !PyText.IsSpace(stanzas[k][0]) && !PyText.IsSpace(stanzas[k][|stanzas[k]| - 1])
      && !PyText.Contains(stanzas[k], "\n\n")
  }

  /** One package holding each stanza, in order. */
  function Packaged(stanzas: seq<string>): (ps: seq<BinaryPackage>)
    ensures |ps| == |stanzas| && forall k :: 0 <= k < |stanzas| ==> ps[k] == BinaryPackage(stanzas[k])
  {
    if stanzas == [] then [] else [BinaryPackage(stanzas[0])] + Packaged(stanzas[1..])
  }

  /** `Stanzas` read from the front: an empty fragment adds nothing, another adds its package. */
  lemma {:induction false} StanzasCons(f: string, fs: seq<string>)
    ensures Stanzas([f] + fs) == (if f == [] then [] else [NewBinaryPackage(f)]) + Stanzas(fs)
    decreases |fs|
  {
    var all := [f] + fs;
    var head: seq<BinaryPackage> := if f == [] then [] else [NewBinaryPackage(f)];
    if fs == [] {
      assert all[..0] == [];
      assert Stanzas(all) == Stanzas([]) + head;
    } else {
      var n := |fs| - 1;
      var init := fs[..n];
      var last: seq<BinaryPackage> := if fs[n] == [] then [] else [NewBinaryPackage(fs[n])];
      assert all[..|all| - 1] == [f] + init;
      assert all[|all| - 1] == fs[n];
      assert Stanzas(all) == Stanzas([f] + init) + last;
      StanzasCons(f, init);
      assert Stanzas(fs) == Stanzas(init) + last;
      assert Stanzas(all) == (head + Stanzas(init)) + last;
    }
  }

  /** A stanza after at most one newline holds no blank line, ends cleanly, and strips to the stanza. */
  lemma PaddedStanza(e: nat, b: string)
    requires e <= 1
    requires b != [] && !PyText.IsSpace(b[0]) && !PyText.IsSpace(b[|b| - 1])
    requires !PyText.Contains(b, "\n\n")
    ensures !PyText.Contains(Newlines(e) + b, "\n\n")
    ensures PyText.EndsCleanly(Newlines(e) + b, "\n\n")
    ensures NewBinaryPackage(Newlines(e) + b) == BinaryPackage(b)
  {
    var p := Newlines(e) + b;
    forall i | 0 <= i ensures !PyText.OccursAt(p, "\n\n", i) {
      if i < e {
        assert p[i + 1] == b[0];
        assert |p[i..i + 2]| == 2 ==> p[i..i + 2][1] == p[i + 1];
      } else if i + 2 <= |p| {
        assert p[i..i + 2] == b[i - e..i - e + 2];
        assert !PyText.OccursAt(b, "\n\n", i - e);
      }
    }
    assert p[|p| - 1] == b[|b| - 1];
    StanzaEndsCleanly(p);
    PyText.StripSurrounded(Newlines(e), b, []);
    assert Newlines(e) + b + [] == p;
  }

  /** The stanzas after the first keep their trim. */
  lemma TrimmedTail(stanzas: seq<string>)
    requires stanzas != [] && Trimmed(stanzas)
    ensures Trimmed(stanzas[1..])
  {
    var rest := stanzas[1..];
    assert forall k :: 0 <= k < |rest| ==> rest[k] == stanzas[k + 1];
  }

  /**
   * Splitting a layout, after any number of newlines, at every "\n\n": a
   * pair of newlines before a stanza gives an empty fragment, a single one
   * stays in front of the stanza, and `Stanzas` skips the empty fragments
   * and strips the newline away.
   */
  lemma {:induction false} LayoutStanzas(e: nat, stanzas: seq<string>, extra: seq<nat>)
    requires stanzas != [] && |extra| + 1 == |stanzas| && Trimmed(stanzas)
    ensures Stanzas(PyText.Split(Newlines(e) + Layout(stanzas, extra), "\n\n")) == Packaged(stanzas)
    decreases |stanzas|, e
  {
    var l := Layout(stanzas, extra);
    var whole := PyText.Split(Newlines(e) + l, "\n\n");
    if e >= 2 {
      var rest := Newlines(e - 2) + l;
      assert Newlines(e) == "\n\n" + Newlines(e - 2);
      assert Newlines(e) + l == ([] + "\n\n") + rest;
      PyText.SplitOfCons([], "\n\n", rest);
      var tail := PyText.Split(rest, "\n\n");
      assert whole == [[]] + tail;
      StanzasCons([], tail);
      LayoutStanzas(e - 2, stanzas, extra);
    } else {
      var p := Newlines(e) + stanzas[0];
      PaddedStanza(e, stanzas[0]);
      if |stanzas| == 1 {
        assert Newlines(e) + l == p;
        PyText.SplitNone(p, "\n\n");
        StanzasCons(p, []);
        assert stanzas[1..] == [];
      } else {
        var rest := Newlines(extra[0]) + Layout(stanzas[1..], extra[1..]);
        assert l == stanzas[0] + ("\n\n" + rest);
        assert Newlines(e) + l == (p + "\n\n") + rest;
        PyText.SplitOfCons(p, "\n\n", rest);
        var tail := PyText.Split(rest, "\n\n");
        assert whole == [p] + tail;
        StanzasCons(p, tail);
        TrimmedTail(stanzas);
        LayoutStanzas(extra[0], stanzas[1..], extra[1..]);
        assert Stanzas(tail) == Packaged(stanzas[1..]);
      }
    }
  }

  /** A layout starts with its first stanza's first character and ends with its last stanza's last one. */
  lemma {:induction false} LayoutEnds(stanzas: seq<string>, extra: seq<nat>)
    requires stanzas != [] && |extra| + 1 == |stanzas| && Trimmed(stanzas)
    ensures Layout(stanzas, extra) != []
    ensures Layout(stanzas, extra)[0] == stanzas[0][0]
    ensures var l, last := Layout(stanzas, extra), stanzas[|stanzas| - 1]; l[|l| - 1] == last[|last| - 1]
    decreases |stanzas|
  {
    if |stanzas| > 1 {
      TrimmedTail(stanzas);
      LayoutEnds(stanzas[1..], extra[1..]);
      assert stanzas[1..][|stanzas| - 2] == stanzas[|stanzas| - 1];
    }
  }

  /**
   * A Packages file of trimmed stanzas separated by runs of blank lines of
   * any length, with any whitespace before and after, gives one package per
   * stanza, in order, each holding exactly its stanza.
   */
  lemma PackagesOfLayout(lead: string, stanzas: seq<string>, extra: seq<nat>, trail: string)
    requires PyText.AllSpace(lead) && PyText.AllSpace(trail)
    requires stanzas == [] || |extra| + 1 == |stanzas|
    requires Trimmed(stanzas)
    ensures |PackagesOf(lead + Layout(stanzas, extra) + trail)| == |stanzas|
    ensures forall k :: 0 <= k < |stanzas| ==> PackagesOf(lead + Layout(stanzas, extra) + trail)[k] == BinaryPackage(stanzas[k])
  {
    var l := Layout(stanzas, extra);
    var s := lead + l + trail;
    if stanzas == [] {
      assert s == lead + trail;
      PyText.AllSpaceAppend(lead, trail);
      PackagesOfBlank(s);
    } else {
      LayoutEnds(stanzas, extra);
      PyText.StripSurrounded(lead, l, trail);
      assert Newlines(0) + l == l;
      LayoutStanzas(0, stanzas, extra);
    }
  }
}
