/**
 * Fetching, with the network as an oracle: a fixed function from URL to what
 * opening that URL gives. Decompression and UTF-8 decoding are folded into
 * the oracle's answer.
 */
module Fetch {

  import opened Wrappers
  import opened PyExceptions

  /**
   * Opening a URL: `urlopen` raises URLError (Unreachable), or it opens
   * and the body decompresses and decodes to `text` (Body), or it opens and
   * decompressing or decoding the body raises (Corrupt).
   */
  datatype Response = Unreachable | Body(text: string) | Corrupt

  type Oracle = string -> Response

  /** `_download(url)`: the decoded body; both failures propagate to the caller. */
  function Download(fetch: Oracle, url: string): (r: Result<string, Exception>)
    ensures r.Success? <==> fetch(url).Body?
    ensures r.Success? ==> r.value == fetch(url).text
    ensures r.Failure? ==> (r.error.URLError? || r.error.DecodeError?) && r.error.url == url
    ensures r.Failure? ==> (r.error.URLError? <==> fetch(url).Unreachable?)
  {
    match fetch(url)
    case Unreachable => Failure(URLError(url))
    case Body(t) => Success(t)
    case Corrupt => Failure(DecodeError(url))
  }

  /** The keys of the `decompress` dict, in its (insertion) order. */
  const Suffixes: seq<string> := ["", ".xz", ".gz", ".bzip2"]

  /** What `_download_compressed` returns once `url` has opened: the text, or the decoding error raised. */
  function Opened(fetch: Oracle, url: string): Result<Option<string>, Exception>
    requires !fetch(url).Unreachable?
  {
    if fetch(url).Body? then Success(Some(fetch(url).text)) else Failure(DecodeError(url))
  }

  /**
   * The probe over `suffixes`: the first URL `base + suffix` that opens
   * decides; None if none opens. Only a body that fails to decode raises.
   */
  function Probe(fetch: Oracle, base: string, suffixes: seq<string>): (r: Result<Option<string>, Exception>)
    ensures r.Failure? ==> r.error.DecodeError?
    decreases |suffixes|
  {
    if suffixes == [] then Success(None)
    else if fetch(base + suffixes[0]).Unreachable? then Probe(fetch, base, suffixes[1..])
    else Opened(fetch, base + suffixes[0])
  }

  /** `_download_compressed(base_url)`. */
  method DownloadCompressed(fetch: Oracle, base: string) returns (r: Result<Option<string>, Exception>)
    ensures r == Probe(fetch, base, Suffixes)
  {
    var i := 0;
    while i < |Suffixes|
      invariant 0 <= i <= |Suffixes|
      invariant Probe(fetch, base, Suffixes) == Probe(fetch, base, Suffixes[i..])
    {
      var url := base + Suffixes[i];
      match fetch(url) {
        case Unreachable =>
        case Body(t) => return Success(Some(t));
        case Corrupt => return Failure(DecodeError(url));
      }
      assert Suffixes[i..][1..] == Suffixes[i + 1..];
      i := i + 1;
    }
    return Success(None);
  }

  /**
   * The suffixes are tried in order: when every candidate before the k-th
   * is unreachable and the k-th opens, the k-th decides the result, even
   * when its body then fails to decode (later suffixes are not tried).
   */
  lemma {:induction false} ProbeFirstOpened(fetch: Oracle, base: string, suffixes: seq<string>, k: nat)
    requires k < |suffixes|
    requires forall j :: 0 <= j < k ==> fetch(base + suffixes[j]).Unreachable?
    requires !fetch(base + suffixes[k]).Unreachable?
    ensures Probe(fetch, base, suffixes) == Opened(fetch, base + suffixes[k])
    decreases k
  {
    if k > 0 {
      assert fetch(base + suffixes[0]).Unreachable?;
      ProbeFirstOpened(fetch, base, suffixes[1..], k - 1);
    }
  }

  /** The probe comes back empty-handed exactly when no candidate opens. */
  lemma {:induction false} ProbeNone(fetch: Oracle, base: string, suffixes: seq<string>)
    ensures Probe(fetch, base, suffixes) == Success(None)
        <==> forall j :: 0 <= j < |suffixes| ==> fetch(base + suffixes[j]).Unreachable?
    decreases |suffixes|
  {
    if suffixes != [] {
      ProbeNone(fetch, base, suffixes[1..]);
      assert forall j :: 1 <= j < |suffixes| ==> suffixes[j] == suffixes[1..][j - 1];
    }
  }

  /** The probe consults the oracle on the candidate URLs and nowhere else. */
  lemma {:induction false} ProbeConsults(f: Oracle, g: Oracle, base: string, suffixes: seq<string>)
    requires forall j :: 0 <= j < |suffixes| ==> f(base + suffixes[j]) == g(base + suffixes[j])
    ensures Probe(f, base, suffixes) == Probe(g, base, suffixes)
    decreases |suffixes|
  {
    if suffixes != [] {
      assert f(base + suffixes[0]) == g(base + suffixes[0]);
      ProbeConsults(f, g, base, suffixes[1..]);
    }
  }

  /** The URL for suffix `k`: the plain file, then `.xz`, `.gz` and `.bzip2`. */
  lemma SuffixOrder(base: string)
    ensures [base + Suffixes[0], base + Suffixes[1], base + Suffixes[2], base + Suffixes[3]]
         == [base, base + ".xz", base + ".gz", base + ".bzip2"]
  {
    assert base + "" == base;
  }
}
