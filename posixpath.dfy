/**
 * `posixpath.join(a, *parts)`: each part is applied in turn; a part that
 * starts with '/' replaces the path built so far, otherwise it is appended,
 * after a '/' unless the path is empty or already ends with one.
 */
module PosixPath {

  import PyText

  predicate StartsWithSlash(b: string) {
    |b| > 0 && b[0] == '/'
  }

  predicate EndsWithSlash(p: string) {
    |p| > 0 && p[|p| - 1] == '/'
  }

  /** One iteration of the loop in `posixpath.join`. */
  function JoinStep(path: string, b: string): string {
    if StartsWithSlash(b) then b
    else if path == [] || EndsWithSlash(path) then path + b
    else path + "/" + b
  }

  function Join(a: string, parts: seq<string>): string
    decreases |parts|
  {
    if parts == [] then a else Join(JoinStep(a, parts[0]), parts[1..])
  }

  /** A path segment that `Join` glues on with exactly one '/'. */
  predicate PlainSegment(b: string) {
    b != [] && b[0] != '/' && b[|b| - 1] != '/'
  }

  /** The base as `Join` continues it: with a '/' added unless it is empty or ends with one. */
  function Lead(a: string): string {
    if a == [] || EndsWithSlash(a) then a else a + "/"
  }

  /** Joining plain segments puts exactly one '/' between consecutive segments. */
  lemma {:induction false} JoinPlain(a: string, parts: seq<string>)
    requires parts != []
    requires forall k :: 0 <= k < |parts| ==> PlainSegment(parts[k])
    ensures Join(a, parts) == Lead(a) + PyText.JoinWith(parts, "/")
    decreases |parts|
  {
    var b := parts[0];
    assert JoinStep(a, b) == Lead(a) + b;
    if |parts| > 1 {
      var a' := Lead(a) + b;
      assert a' != [] && !EndsWithSlash(a');
      JoinPlain(a', parts[1..]);
      assert Lead(a') == Lead(a) + (b + "/");
    }
  }

  /** A part that starts with '/' discards everything before it. */
  lemma {:induction false} JoinAbsolute(a: string, parts: seq<string>, k: nat)
    requires k < |parts| && StartsWithSlash(parts[k])
    ensures Join(a, parts) == Join(parts[k], parts[k + 1..])
    decreases k
  {
    if k > 0 {
      JoinAbsolute(JoinStep(a, parts[0]), parts[1..], k - 1);
      assert parts[1..][k - 1 + 1..] == parts[k + 1..];
    }
  }

  /** When no part starts with '/', the result extends the base. */
  lemma {:induction false} JoinExtends(a: string, parts: seq<string>)
    requires forall k :: 0 <= k < |parts| ==> !StartsWithSlash(parts[k])
    ensures |Join(a, parts)| >= |a| && Join(a, parts)[..|a|] == a
    decreases |parts|
  {
    if parts != [] {
      var a' := JoinStep(a, parts[0]);
      assert |a'| >= |a| && a'[..|a|] == a;
      JoinExtends(a', parts[1..]);
    }
  }
}
