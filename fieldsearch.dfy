/**
 * `re.search(key + ': (.*)\n', content).group(1)`, the one pattern all
 * three variants use to read a field, for a key without regular-expression
 * metacharacters (every key the modelled code passes is one).
 *
 * The pattern is not anchored to the start of a line. `re.search` tries the
 * indices left to right; at an index the pattern matches when `key: `
 * starts there and a newline follows somewhere after it (`.` matches every
 * character except '\n', so `(.*)\n` needs one); the capture is the text
 * after `key: ` up to the first newline.
 */
module FieldSearch {

  import opened Wrappers
  import opened PyExceptions
  import PyText

  /** The literal part of the pattern. */
  function Lead(key: string): string {
    key + ": "
  }

  /** The pattern matches at index `i`. */
  predicate MatchesAt(c: string, key: string, i: int) {
    PyText.OccursAt(c, Lead(key), i) && '\n' in c[i + |key| + 2..]
  }

  ghost predicate Found(c: string, key: string) {
    exists i :: MatchesAt(c, key, i)
  }

  /** `v` is what `(.*)` captures for a match at `i`: the text after `key: ` up to the next newline. */
  ghost predicate CaptureAt(c: string, key: string, i: int, v: string) {
    var j := i + |key| + 2;
    0 <= j && j + |v| < |c| && c[j..j + |v|] == v && '\n' !in v && c[j + |v|] == '\n'
  }

  /** `v` is the capture of the leftmost match. */
  ghost predicate LeftmostCapture(c: string, key: string, v: string) {
    exists i :: MatchesAt(c, key, i) && (forall j :: 0 <= j < i ==> !MatchesAt(c, key, j)) && CaptureAt(c, key, i, v)
  }

  /** The leftmost index at or after `i` where the pattern matches. */
  function SearchFrom(c: string, key: string, i: nat): (r: Option<nat>)
    requires i <= |c|
    ensures r.Some? ==> i <= r.value && MatchesAt(c, key, r.value)
    ensures r.Some? ==> forall j :: i <= j < r.value ==> !MatchesAt(c, key, j)
    ensures r.None? ==> forall j :: i <= j ==> !MatchesAt(c, key, j)
    decreases |c| - i
  {
    if MatchesAt(c, key, i) then Some(i)
    else if i == |c| then None
    else SearchFrom(c, key, i + 1)
  }

  /** The number of characters from `j` to the next newline. */
  function LineLength(c: string, j: nat): (n: nat)
    requires j <= |c| && '\n' in c[j..]
    ensures j + n < |c| && c[j + n] == '\n' && '\n' !in c[j..j + n]
    decreases |c| - j
  {
    assert c[j..] == [c[j]] + c[j + 1..];
    if c[j] == '\n' then 0
    else
      var m := LineLength(c, j + 1);
      assert c[j..j + 1 + m] == [c[j]] + c[j + 1..j + 1 + m];
      1 + m
  }

  /** The capture of a match at `i`, which occurs in `c` as `key: ` + value + '\n'. */
  function ValueAt(c: string, key: string, i: nat): (v: string)
    requires MatchesAt(c, key, i)
    ensures CaptureAt(c, key, i, v)
    ensures PyText.OccursAt(c, key + ": " + v + "\n", i)
  {
    var j := i + |key| + 2;
    var v := c[j..j + LineLength(c, j)];
    assert c[i..j] == key + ": ";
    assert c[i..j + |v| + 1] == c[i..j] + c[j..j + |v|] + [c[j + |v|]];
    v
  }

  /**
   * The capture of the search, or None where `re.search` returns None.
   * It succeeds exactly when the pattern matches somewhere, and then gives
   * the capture of the leftmost match: a newline-free text that occurs in
   * `c` as `key: ` + value + '\n'.
   */
  function Search(c: string, key: string): (r: Option<string>)
    ensures r.Some? <==> Found(c, key)
    ensures r.Some? ==> LeftmostCapture(c, key, r.value)
    ensures r.Some? ==> '\n' !in r.value && PyText.Contains(c, key + ": " + r.value + "\n")
  {
    match SearchFrom(c, key, 0)
    case None => None
    case Some(i) => Some(ValueAt(c, key, i))
  }

  /** A newline-free `v` at `j` followed by '\n' spans exactly the rest of the line. */
  lemma {:induction false} LineLengthOf(c: string, j: nat, v: string)
    requires j + |v| < |c| && c[j..j + |v|] == v && '\n' !in v && c[j + |v|] == '\n'
    ensures '\n' in c[j..] && LineLength(c, j) == |v|
    decreases |v|
  {
    assert c[j..][|v|] == '\n';
    if v != [] {
      assert c[j] == v[0];
      assert c[j + 1..j + 1 + |v[1..]|] == v[1..];
      LineLengthOf(c, j + 1, v[1..]);
    }
  }

  /** A match determines its capture: the value runs exactly to the first newline. */
  lemma CaptureUnique(c: string, key: string, i: int, v: string, w: string)
    requires CaptureAt(c, key, i, v) && CaptureAt(c, key, i, w)
    ensures v == w
  {
    var j := i + |key| + 2;
    LineLengthOf(c, j, v);
    LineLengthOf(c, j, w);
  }

  /**
   * Only the leftmost `key: ` counts: the search succeeds exactly when a
   * newline follows that first occurrence. A later occurrence never helps,
   * since whatever follows it also follows the first.
   */
  lemma FirstLeadDecides(c: string, key: string, i: nat)
    requires PyText.OccursAt(c, Lead(key), i)
    requires forall j :: 0 <= j < i ==> !PyText.OccursAt(c, Lead(key), j)
    ensures Search(c, key).Some? <==> '\n' in c[i + |key| + 2..]
  {
    var r := SearchFrom(c, key, 0);
    if r.Some? {
      var m := r.value;
      assert PyText.OccursAt(c, Lead(key), m);
      assert m >= i;
      var n := LineLength(c, m + |key| + 2);
      assert c[i + |key| + 2..][m + n - i] == c[m + |key| + 2 + n];
    } else {
      assert !MatchesAt(c, key, i);
    }
  }

  /** A field whose `key: ` first occurs on the last line (no newline after it) is never found. */
  lemma LastLineNotFound(c: string, key: string, i: nat)
    requires PyText.OccursAt(c, Lead(key), i)
    requires forall j :: 0 <= j < i ==> !PyText.OccursAt(c, Lead(key), j)
    requires '\n' !in c[i..]
    ensures Search(c, key).None?
  {
    FirstLeadDecides(c, key, i);
    assert c[i + |key| + 2..] == c[i..][|key| + 2..];
  }

  /** A match at the first occurrence of `key: ` is the leftmost match. */
  lemma SearchFromFirst(c: string, key: string, i: nat)
    requires MatchesAt(c, key, i)
    requires forall j :: 0 <= j < i ==> !PyText.OccursAt(c, Lead(key), j)
    ensures SearchFrom(c, key, 0) == Some(i)
  {
  }

  /** The value of the search is the capture of its leftmost match. */
  lemma SearchValue(c: string, key: string, i: nat, v: string)
    requires SearchFrom(c, key, 0) == Some(i)
    requires CaptureAt(c, key, i, v)
    ensures Search(c, key) == Some(v)
  {
    CaptureUnique(c, key, i, v, ValueAt(c, key, i));
  }

  /** The first occurrence of `key: `, when a newline follows it, gives the search its value. */
  lemma CaptureOfFirstLead(c: string, key: string, i: nat, v: string)
    requires PyText.OccursAt(c, Lead(key), i)
    requires forall j :: 0 <= j < i ==> !PyText.OccursAt(c, Lead(key), j)
    requires CaptureAt(c, key, i, v)
    ensures Search(c, key) == Some(v)
  {
    LineLengthOf(c, i + |key| + 2, v);
    assert MatchesAt(c, key, i);
    SearchFromFirst(c, key, i);
    SearchValue(c, key, i, v);
  }

  /** Where `pre + key: ` occurs, `key: ` occurs too, `|pre|` characters on. */
  lemma LeadOfLongerKey(c: string, pre: string, key: string, j: int)
    requires PyText.OccursAt(c, Lead(pre + key), j)
    ensures PyText.OccursAt(c, Lead(key), j + |pre|)
  {
    assert Lead(pre + key) == pre + Lead(key);
    assert c[j + |pre|..j + |pre| + |Lead(key)|] == c[j..j + |Lead(pre + key)|][|pre|..];
  }

  /** No earlier `key: ` means no earlier `pre + key: ` either. */
  lemma NoLongerLeadBefore(c: string, pre: string, key: string, i: nat)
    requires forall j :: 0 <= j < i + |pre| ==> !PyText.OccursAt(c, Lead(key), j)
    ensures forall j :: 0 <= j < i ==> !PyText.OccursAt(c, Lead(pre + key), j)
  {
    forall j | 0 <= j < i ensures !PyText.OccursAt(c, Lead(pre + key), j) {
      if PyText.OccursAt(c, Lead(pre + key), j) {
        LeadOfLongerKey(c, pre, key, j);
      }
    }
  }

  /** The text from `m` up to the next newline is what a match whose value starts at `m` captures. */
  lemma CaptureOfLine(c: string, key: string, i: nat, m: nat)
    requires m == i + |key| + 2 && m <= |c| && '\n' in c[m..]
    ensures CaptureAt(c, key, i, c[m..m + LineLength(c, m)])
  {
  }

  /**
   * The pattern is not anchored to the start of a line, so a key that ends
   * a longer key is shadowed by it: when `pre + key: ` occurs before any
   * `key: ` of its own, searching for `key` reads the longer key's value,
   * or fails exactly when that search fails.
   */
  lemma ShadowedByLongerKey(c: string, pre: string, key: string, i: nat)
    requires PyText.OccursAt(c, Lead(pre + key), i)
    requires forall j :: 0 <= j < i + |pre| ==> !PyText.OccursAt(c, Lead(key), j)
    ensures Search(c, key) == Search(c, pre + key)
  {
    var k := i + |pre|;
    LeadOfLongerKey(c, pre, key, i);
    NoLongerLeadBefore(c, pre, key, i);
    var m := k + |key| + 2;
    assert m == i + |pre + key| + 2;
    if '\n' in c[m..] {
      var v := c[m..m + LineLength(c, m)];
      CaptureOfLine(c, key, k, m);
      CaptureOfLine(c, pre + key, i, m);
      CaptureOfFirstLead(c, key, k, v);
      CaptureOfFirstLead(c, pre + key, i, v);
    } else {
      FirstLeadDecides(c, key, k);
      FirstLeadDecides(c, pre + key, i);
    }
  }

  /** A first line `key: v` that ends in '\n' is found, whatever follows it. */
  lemma FirstLineFound(c: string, key: string, v: string, rest: string)
    requires '\n' !in v
    requires c == key + ": " + v + "\n" + rest
    ensures Search(c, key) == Some(v)
  {
    assert c[..|key| + 2] == key + ": ";
    assert c[|key| + 2..|key| + 2 + |v|] == v;
    CaptureOfFirstLead(c, key, 0, v);
  }
}
