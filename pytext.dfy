/**
 * The Python string built-ins the APT metadata code relies on:
 * `str.strip()`, `str.split()` (no argument), `str.split(sep)` and
 * `sep.join(parts)`, on `string` (a sequence of Unicode scalar values).
 */
module PyText {

  import opened Wrappers
  import Results

  /** `c.isspace()`: the characters `str.strip()` and `str.split()` treat as whitespace. */
  predicate IsSpace(c: char) {
    || c == ' '
    || ('\t' <= c <= '\r')                   // \t \n \v \f \r
    || ('\U{1c}' <= c <= '\U{1f}')           // the four information separators
    || c == '\U{85}' || c == '\U{a0}' || c == '\U{1680}'
    || ('\U{2000}' <= c <= '\U{200a}')
    || c == '\U{2028}' || c == '\U{2029}' || c == '\U{202f}' || c == '\U{205f}' || c == '\U{3000}'
  }

  predicate AllSpace(s: string) {
    forall i :: 0 <= i < |s| ==> IsSpace(s[i])
  }

  predicate NoSpace(s: string) {
    forall i :: 0 <= i < |s| ==> !IsSpace(s[i])
  }

  /** Printable ASCII other than the space is not whitespace. */
  lemma NoSpaceOfVisible(s: string)
    requires forall i :: 0 <= i < |s| ==> '!' <= s[i] <= '~'
    ensures NoSpace(s)
  {
  }

  /** The number of whitespace characters `s` starts with. */
  function LeadingSpaces(s: string): (n: nat)
    ensures n <= |s|
    ensures AllSpace(s[..n])
    ensures n < |s| ==> !IsSpace(s[n])
  {
    if s != [] && IsSpace(s[0]) then
      var m := LeadingSpaces(s[1..]);
      assert s[..1 + m] == [s[0]] + s[1..][..m];
      1 + m
    else
      0
  }

  /** The number of whitespace characters `s` ends with. */
  function TrailingSpaces(s: string): (n: nat)
    ensures n <= |s|
    ensures AllSpace(s[|s| - n..])
    ensures n < |s| ==> !IsSpace(s[|s| - n - 1])
  {
    if s != [] && IsSpace(s[|s| - 1]) then
      var init := s[..|s| - 1];
      var m := TrailingSpaces(init);
      var tail := s[|s| - (1 + m)..];
      assert forall i :: 0 <= i < m ==> tail[i] == init[|init| - m..][i];
      assert tail[m] == s[|s| - 1];
      assert 1 + m < |s| ==> s[|s| - (1 + m) - 1] == init[|init| - m - 1];
      1 + m
    else
      0
  }

  /**
   * `s.strip()`: `s` without its leading and trailing whitespace. The result
   * is the slice of `s` between the two maximal whitespace runs, and it
   * neither starts nor ends with whitespace.
   */
  function Strip(s: string): (r: string)
    ensures LeadingSpaces(s) + |r| <= |s|
    ensures r == s[LeadingSpaces(s)..LeadingSpaces(s) + |r|]
    ensures AllSpace(s[..LeadingSpaces(s)]) && AllSpace(s[LeadingSpaces(s) + |r|..])
    ensures r == [] || (!IsSpace(r[0]) && !IsSpace(r[|r| - 1]))
  {
    var t := s[LeadingSpaces(s)..];
    t[..|t| - TrailingSpaces(t)]
  }

  /** A text that neither starts nor ends with whitespace is its own strip. */
  lemma StripFixed(s: string)
    requires s == [] || (!IsSpace(s[0]) && !IsSpace(s[|s| - 1]))
    ensures Strip(s) == s
  {
  }

  /** Stripping a text that ends in one newline drops that newline. */
  lemma StripFinalNewline(s: string)
    requires s != [] && !IsSpace(s[0]) && !IsSpace(s[|s| - 1])
    ensures Strip(s + "\n") == s
  {
    var t := s + "\n";
    assert t[0] == s[0];
    assert LeadingSpaces(t) == 0;
    assert t[..|t| - 1] == s;
    assert TrailingSpaces(s) == 0;
    assert TrailingSpaces(t) == 1;
    assert t[0..] == t;
  }

  /** `str.strip()` is idempotent. */
  lemma StripIdempotent(s: string)
    ensures Strip(Strip(s)) == Strip(s)
  {
    StripFixed(Strip(s));
  }

  lemma AllSpaceAppend(a: string, b: string)
    ensures AllSpace(a + b) <==> AllSpace(a) && AllSpace(b)
  {
    if AllSpace(a + b) {
      forall i | 0 <= i < |a| ensures IsSpace(a[i]) { assert a[i] == (a + b)[i]; }
      forall i | 0 <= i < |b| ensures IsSpace(b[i]) { assert b[i] == (a + b)[|a| + i]; }
    }
  }

  /** Whitespace in front of a text that does not start with whitespace is all that `LeadingSpaces` counts. */
  lemma {:induction false} LeadingSpacesBefore(lead: string, x: string)
    requires AllSpace(lead)
    requires x == [] || !IsSpace(x[0])
    ensures LeadingSpaces(lead + x) == |lead|
    decreases |lead|
  {
    if lead == [] {
      assert lead + x == x;
    } else {
      assert (lead + x)[0] == lead[0];
      assert (lead + x)[1..] == lead[1..] + x;
      assert AllSpace(lead[1..]) by {
        forall i | 0 <= i < |lead| - 1 ensures IsSpace(lead[1..][i]) { assert lead[1..][i] == lead[i + 1]; }
      }
      LeadingSpacesBefore(lead[1..], x);
    }
  }

  /** Whitespace after a text that does not end with whitespace is all that `TrailingSpaces` counts. */
  lemma {:induction false} TrailingSpacesAfter(x: string, trail: string)
    requires AllSpace(trail)
    requires x == [] || !IsSpace(x[|x| - 1])
    ensures TrailingSpaces(x + trail) == |trail|
    decreases |trail|
  {
    var s := x + trail;
    if trail == [] {
      assert s == x;
    } else {
      var init := trail[..|trail| - 1];
      assert s[|s| - 1] == trail[|trail| - 1];
      assert s[..|s| - 1] == x + init;
      assert AllSpace(init) by {
        forall i | 0 <= i < |init| ensures IsSpace(init[i]) { assert init[i] == trail[i]; }
      }
      TrailingSpacesAfter(x, init);
    }
  }

  /** Whitespace around a text with non-whitespace at both ends is what the strip removes. */
  lemma StripSurrounded(lead: string, body: string, trail: string)
    requires AllSpace(lead) && AllSpace(trail)
    requires body != [] && !IsSpace(body[0]) && !IsSpace(body[|body| - 1])
    ensures Strip(lead + body + trail) == body
  {
    var s := lead + body + trail;
    assert s == lead + (body + trail);
    LeadingSpacesBefore(lead, body + trail);
    var t := s[|lead|..];
    assert t == body + trail;
    TrailingSpacesAfter(body, trail);
    assert t[..|t| - |trail|] == body;
  }

  /** A text is stripped to nothing exactly when it is all whitespace. */
  lemma StripEmpty(s: string)
    ensures Strip(s) == [] <==> AllSpace(s)
  {
    var l := LeadingSpaces(s);
    var t := s[l..];
    assert s == s[..l] + t;
    AllSpaceAppend(s[..l], t);
    var n := TrailingSpaces(t);
    assert t[|t| - n..] == t <==> n == |t|;
  }

  /** The non-whitespace characters of `s`, in order. */
  function NonSpace(s: string): string {
    if s == [] then [] else (if IsSpace(s[0]) then [] else [s[0]]) + NonSpace(s[1..])
  }

  lemma {:induction false} NonSpaceAppend(a: string, b: string)
    ensures NonSpace(a + b) == NonSpace(a) + NonSpace(b)
  {
    if a == [] {
      assert a + b == b;
    } else {
      assert (a + b)[1..] == a[1..] + b;
      NonSpaceAppend(a[1..], b);
    }
  }

  lemma {:induction false} NonSpaceOfAllSpace(s: string)
    requires AllSpace(s)
    ensures NonSpace(s) == []
  {
    if s != [] { NonSpaceOfAllSpace(s[1..]); }
  }

  lemma {:induction false} NonSpaceOfNoSpace(s: string)
    requires NoSpace(s)
    ensures NonSpace(s) == s
  {
    if s != [] { NonSpaceOfNoSpace(s[1..]); }
  }

  /** The number of non-whitespace characters `s` starts with. */
  function TokenLength(s: string): (n: nat)
    ensures n <= |s|
    ensures NoSpace(s[..n])
    ensures n < |s| ==> IsSpace(s[n])
  {
    if s != [] && !IsSpace(s[0]) then
      var m := TokenLength(s[1..]);
      assert s[..1 + m] == [s[0]] + s[1..][..m];
      1 + m
    else
      0
  }

  /**
   * `s.split()`: the maximal runs of non-whitespace characters of `s`, in
   * order; whitespace runs separate them and empty pieces are dropped.
   */
  function Words(s: string): (ws: seq<string>)
    ensures forall k :: 0 <= k < |ws| ==> ws[k] != [] && NoSpace(ws[k])
    decreases |s|
  {
    var t := s[LeadingSpaces(s)..];
    if t == [] then
      []
    else
      var n := TokenLength(t);
      [t[..n]] + Words(t[n..])
  }

  /** The words of `s`, put back together, are exactly its non-whitespace characters. */
  lemma {:induction false} WordsKeepText(s: string)
    ensures Results.Flatten(Words(s)) == NonSpace(s)
    decreases |s|
  {
    var t := s[LeadingSpaces(s)..];
    NonSpaceSkipsLeading(s);
    if t != [] {
      var n := TokenLength(t);
      NonSpaceOfToken(t);
      WordsKeepText(t[n..]);
      assert Words(s) == [t[..n]] + Words(t[n..]);
      Results.FlattenFront(Words(s));
      assert Words(s)[1..] == Words(t[n..]);
    }
  }

  /** Leading whitespace holds no non-whitespace character. */
  lemma NonSpaceSkipsLeading(s: string)
    ensures NonSpace(s) == NonSpace(s[LeadingSpaces(s)..])
  {
    var l := LeadingSpaces(s);
    assert s == s[..l] + s[l..];
    NonSpaceAppend(s[..l], s[l..]);
    NonSpaceOfAllSpace(s[..l]);
  }

  /** A text's first token is kept whole by `NonSpace`. */
  lemma NonSpaceOfToken(t: string)
    ensures NonSpace(t) == t[..TokenLength(t)] + NonSpace(t[TokenLength(t)..])
  {
    var n := TokenLength(t);
    assert t == t[..n] + t[n..];
    NonSpaceAppend(t[..n], t[n..]);
    NonSpaceOfNoSpace(t[..n]);
  }

  /** Leading whitespace does not change the words of a text. */
  lemma WordsSkipSpace(c: char, s: string)
    requires IsSpace(c)
    ensures Words([c] + s) == Words(s)
  {
    var l := LeadingSpaces(s);
    assert LeadingSpaces([c] + s) == 1 + l by { assert ([c] + s)[1..] == s; }
    assert ([c] + s)[1 + l..] == s[l..];
  }

  /** `sep.join(parts)`. */
  function JoinWith(parts: seq<string>, sep: string): string {
    if |parts| == 0 then []
    else if |parts| == 1 then parts[0]
    else parts[0] + sep + JoinWith(parts[1..], sep)
  }

  lemma {:induction false} JoinWithStarts(parts: seq<string>, sep: string)
    requires |parts| >= 1
    ensures |JoinWith(parts, sep)| >= |parts[0]|
    ensures JoinWith(parts, sep)[..|parts[0]|] == parts[0]
  {
    if |parts| > 1 {
      assert JoinWith(parts, sep) == parts[0] + (sep + JoinWith(parts[1..], sep));
    }
  }

  lemma {:induction false} JoinWithEnds(parts: seq<string>, sep: string)
    requires |parts| >= 1
    ensures |JoinWith(parts, sep)| >= |parts[|parts| - 1]|
    ensures JoinWith(parts, sep)[|JoinWith(parts, sep)| - |parts[|parts| - 1]|..] == parts[|parts| - 1]
  {
    if |parts| > 1 {
      JoinWithEnds(parts[1..], sep);
      assert JoinWith(parts, sep) == (parts[0] + sep) + JoinWith(parts[1..], sep);
    }
  }

  /** A word followed by the end of the text or by whitespace is the first token. */
  lemma {:induction false} TokenLengthOf(w: string, rest: string)
    requires NoSpace(w)
    requires rest == [] || IsSpace(rest[0])
    ensures TokenLength(w + rest) == |w|
  {
    if w != [] {
      assert (w + rest)[0] == w[0];
      assert (w + rest)[1..] == w[1..] + rest;
      TokenLengthOf(w[1..], rest);
    } else {
      assert w + rest == rest;
    }
  }

  /** A lone word is its own split. */
  lemma WordsOfWord(w: string)
    requires w != [] && NoSpace(w)
    ensures Words(w) == [w]
  {
    assert LeadingSpaces(w) == 0;
    TokenLengthOf(w, []);
    assert w + [] == w;
    assert w[|w|..] == [];
  }

  /** A word followed by the end of the text or by whitespace is the first word; the words of the rest follow. */
  lemma WordsOfWordThen(w: string, rest: string)
    requires w != [] && NoSpace(w)
    requires rest == [] || IsSpace(rest[0])
    ensures Words(w + rest) == [w] + Words(rest)
  {
    var s := w + rest;
    assert s[0] == w[0];
    assert LeadingSpaces(s) == 0;
    TokenLengthOf(w, rest);
    assert s[0..] == s;
    assert s[..|w|] == w;
    assert s[|w|..] == rest;
  }

  /** Any run of whitespace in front of a text leaves its words unchanged. */
  lemma {:induction false} WordsSkipSpaces(g: string, s: string)
    requires AllSpace(g)
    ensures Words(g + s) == Words(s)
    decreases |g|
  {
    if g == [] {
      assert g + s == s;
    } else {
      assert g + s == [g[0]] + (g[1..] + s);
      WordsSkipSpaces(g[1..], s);
      WordsSkipSpace(g[0], g[1..] + s);
    }
  }

  /** An all-whitespace text has no words. */
  lemma WordsOfAllSpace(s: string)
    requires AllSpace(s)
    ensures Words(s) == []
  {
    assert LeadingSpaces(s) == |s|;
  }

  /** A word, a non-empty whitespace run of any kind, then more text: the word, then the words of that text. */
  lemma WordsOfCons(w: string, sep: string, rest: string)
    requires w != [] && NoSpace(w)
    requires sep != [] && AllSpace(sep)
    ensures Words(w + (sep + rest)) == [w] + Words(rest)
  {
    assert (sep + rest)[0] == sep[0];
    WordsOfWordThen(w, sep + rest);
    WordsSkipSpaces(sep, rest);
  }

  /** Splitting the space-joined words gives the words back. */
  lemma {:induction false} WordsOfJoin(ws: seq<string>)
    requires forall k :: 0 <= k < |ws| ==> ws[k] != [] && NoSpace(ws[k])
    ensures Words(JoinWith(ws, " ")) == ws
  {
    if |ws| == 1 {
      WordsOfWord(ws[0]);
      assert ws == [ws[0]];
    } else if ws != [] {
      var tail := ws[1..];
      assert forall k :: 0 <= k < |tail| ==> tail[k] == ws[k + 1];
      WordsOfJoin(tail);
      WordsOfJoinStep(ws);
    }
  }

  /** One more word in front of a non-empty space-joined list. */
  lemma WordsOfJoinStep(ws: seq<string>)
    requires |ws| >= 2 && ws[0] != [] && NoSpace(ws[0])
    requires Words(JoinWith(ws[1..], " ")) == ws[1..]
    ensures Words(JoinWith(ws, " ")) == ws
  {
    var rest := JoinWith(ws[1..], " ");
    assert JoinWith(ws, " ") == ws[0] + " " + rest;
    assert ws[0] + " " + rest == ws[0] + (" " + rest);
    WordsOfCons(ws[0], " ", rest);
    assert ws == [ws[0]] + ws[1..];
  }

  /**
   * Words laid out between whitespace gaps: `gaps[0] + ws[0] + gaps[1] + ...
   * + ws[n - 1] + gaps[n]`.
   */
  function Spread(ws: seq<string>, gaps: seq<string>): string
    requires |gaps| == |ws| + 1
    decreases |ws|
  {
    if ws == [] then gaps[0] else gaps[0] + (ws[0] + Spread(ws[1..], gaps[1..]))
  }

  /** The gaps are whitespace, of any kind and length, and not empty where they stand between two words. */
  predicate Separating(gaps: seq<string>) {
    && (forall k :: 0 <= k < |gaps| ==> AllSpace(gaps[k]))
    && (forall k :: 0 < k < |gaps| - 1 ==> gaps[k] != [])
  }

  /** One step of the layout: the first gap, the first word, then the layout of the rest. */
  lemma SpreadFront(ws: seq<string>, gaps: seq<string>)
    requires |gaps| == |ws| + 1 && ws != []
    ensures Spread(ws, gaps) == gaps[0] + (ws[0] + Spread(ws[1..], gaps[1..]))
  {
  }

  /** A layout whose first gap is `g` and first word `w`, followed by a layout of `rest`. */
  lemma SpreadCons(ws: seq<string>, gaps: seq<string>, g: string, w: string, ws': seq<string>, gaps': seq<string>, rest: string)
    requires ws == [w] + ws' && gaps == [g] + gaps' && |gaps'| == |ws'| + 1
    requires Spread(ws', gaps') == rest
    ensures Spread(ws, gaps) == g + (w + rest)
  {
    assert ws[1..] == ws' && gaps[1..] == gaps';
    SpreadFront(ws, gaps);
  }

  /** Whitespace, a word, then text whose words are `tail` and that starts with whitespace if anything. */
  lemma WordsOfGapWord(g: string, w: string, r: string, tail: seq<string>)
    requires AllSpace(g) && w != [] && NoSpace(w)
    requires r == [] || IsSpace(r[0])
    requires Words(r) == tail
    ensures Words(g + (w + r)) == [w] + tail
  {
    WordsSkipSpaces(g, w + r);
    WordsOfWordThen(w, r);
  }

  /** The words of a well-formed word list, after the first. */
  lemma WordsTail(ws: seq<string>)
    requires ws != [] && forall k :: 0 <= k < |ws| ==> ws[k] != [] && NoSpace(ws[k])
    ensures forall k :: 0 <= k < |ws[1..]| ==> ws[1..][k] != [] && NoSpace(ws[1..][k])
  {
    assert forall k :: 0 <= k < |ws[1..]| ==> ws[1..][k] == ws[k + 1];
  }

  /** Cutting a text at `l`, then `n` further on, and putting it back together. */
  lemma CutTwice(s: string, l: nat, n: nat)
    requires l <= |s| && n <= |s[l..]|
    ensures s == s[..l] + (s[l..][..n] + s[l..][n..])
  {
  }

  /** Dropping the first gap of a layout with words keeps the rest separating. */
  lemma SeparatingTail(gaps: seq<string>)
    requires Separating(gaps) && |gaps| >= 2
    ensures Separating(gaps[1..])
  {
    var rest := gaps[1..];
    forall k | 0 <= k < |rest| ensures rest[k] == gaps[k + 1] {
    }
  }

  /** A spread that starts with a gap before a word, or is a lone gap, is empty or starts with whitespace. */
  lemma SpreadStartsWithSpace(ws: seq<string>, gaps: seq<string>)
    requires |gaps| == |ws| + 1 && Separating(gaps)
    requires ws != [] ==> gaps[0] != []
    ensures Spread(ws, gaps) == [] || IsSpace(Spread(ws, gaps)[0])
  {
    if ws != [] {
      SpreadFront(ws, gaps);
      assert Spread(ws, gaps)[0] == gaps[0][0];
    } else {
      assert Spread(ws, gaps) == gaps[0];
    }
  }

  /**
   * `str.split()` cuts at every whitespace run and nowhere else: words laid
   * out between separating gaps (spaces, tabs, runs of them, leading and
   * trailing ones) are split back into exactly those words.
   */
  lemma {:induction false} WordsOfSpread(ws: seq<string>, gaps: seq<string>)
    requires forall k :: 0 <= k < |ws| ==> ws[k] != [] && NoSpace(ws[k])
    requires |gaps| == |ws| + 1 && Separating(gaps)
    ensures Words(Spread(ws, gaps)) == ws
    decreases |ws|
  {
    if ws == [] {
      assert Spread(ws, gaps) == gaps[0];
      WordsOfAllSpace(gaps[0]);
    } else {
      var tail, rest := ws[1..], gaps[1..];
      WordsTail(ws);
      SeparatingTail(gaps);
      if tail != [] {
        assert rest[0] == gaps[1];
      }
      var r := Spread(tail, rest);
      SpreadFront(ws, gaps);
      SpreadStartsWithSpace(tail, rest);
      WordsOfSpread(tail, rest);
      WordsOfGapWord(gaps[0], ws[0], r, tail);
      assert ws == [ws[0]] + tail;
    }
  }

  /** The whitespace runs before, between and after the words of `s`. */
  function Gaps(s: string): (gaps: seq<string>)
    ensures |gaps| == |Words(s)| + 1
    decreases |s|
  {
    var l := LeadingSpaces(s);
    var t := s[l..];
    if t == [] then
      [s]
    else
      var n := TokenLength(t);
      [s[..l]] + Gaps(t[n..])
  }

  /** A text that starts with whitespace has a non-empty first gap. */
  lemma GapsStartWithSpace(s: string)
    requires s != [] && IsSpace(s[0])
    ensures Gaps(s)[0] != []
  {
    assert LeadingSpaces(s) >= 1;
  }

  /** The gaps of a text that has a first word: its leading whitespace, then the gaps after that word. */
  lemma GapsOfWord(s: string)
    requires s[LeadingSpaces(s)..] != []
    ensures var l := LeadingSpaces(s); var t := s[l..];
      && Gaps(s) == [s[..l]] + Gaps(t[TokenLength(t)..])
      && Words(s) == [t[..TokenLength(t)]] + Words(t[TokenLength(t)..])
  {
  }

  /** A whitespace gap in front of separating gaps whose first one is non-empty when a word follows it. */
  lemma SeparatingCons(g: string, gaps: seq<string>)
    requires AllSpace(g) && Separating(gaps)
    requires |gaps| > 1 ==> gaps[0] != []
    ensures Separating([g] + gaps)
  {
    var all := [g] + gaps;
    forall k | 0 < k < |all| ensures all[k] == gaps[k - 1] {
    }
  }

  /** The gaps of every text separate its words. */
  lemma {:induction false} GapsSeparate(s: string)
    ensures Separating(Gaps(s))
    decreases |s|
  {
    var l := LeadingSpaces(s);
    var t := s[l..];
    if t == [] {
      assert Gaps(s) == [s];
      assert s == s[..l];
    } else {
      var u := t[TokenLength(t)..];
      GapsOfWord(s);
      GapsSeparate(u);
      if u != [] {
        GapsStartWithSpace(u);
      } else {
        assert Gaps(u) == [u];
      }
      SeparatingCons(s[..l], Gaps(u));
    }
  }

  /** The layout of a text with a first word: its leading whitespace, that word, then the rest laid out. */
  lemma SpreadOfWordsStep(s: string)
    requires s[LeadingSpaces(s)..] != []
    requires var t := s[LeadingSpaces(s)..]; var u := t[TokenLength(t)..];
      Spread(Words(u), Gaps(u)) == u
    ensures Spread(Words(s), Gaps(s)) == s
  {
    var l := LeadingSpaces(s);
    var t := s[l..];
    var n := TokenLength(t);
    var u := t[n..];
    GapsOfWord(s);
    SpreadCons(Words(s), Gaps(s), s[..l], t[..n], Words(u), Gaps(u), u);
    CutTwice(s, l, n);
  }

  /**
   * Every text is its words laid out between its gaps, and the gaps
   * separate: with `WordsOfSpread`, `Words(s)` is the one word list that
   * lays out `s` between separating gaps.
   */
  lemma {:induction false} SpreadOfWords(s: string)
    ensures Separating(Gaps(s))
    ensures Spread(Words(s), Gaps(s)) == s
    decreases |s|
  {
    GapsSeparate(s);
    var l := LeadingSpaces(s);
    var t := s[l..];
    if t == [] {
      assert s[..l] == s;
      assert Gaps(s) == [s] && Words(s) == [];
    } else {
      SpreadOfWords(t[TokenLength(t)..]);
      SpreadOfWordsStep(s);
    }
  }

  /** `pat` occurs in `s` at index `i`. */
  predicate OccursAt(s: string, pat: string, i: int) {
    0 <= i && i + |pat| <= |s| && s[i..i + |pat|] == pat
  }

  ghost predicate Contains(s: string, pat: string) {
    exists i :: OccursAt(s, pat, i)
  }

  /** `s.find(pat, i)`: the leftmost occurrence of `pat` at or after `i`. */
  function IndexFrom(s: string, pat: string, i: nat): (r: Option<nat>)
    requires i <= |s|
    ensures r.Some? ==> i <= r.value && OccursAt(s, pat, r.value)
    ensures r.Some? ==> forall j :: i <= j < r.value ==> !OccursAt(s, pat, j)
    ensures r.None? ==> forall j :: i <= j ==> !OccursAt(s, pat, j)
    decreases |s| - i
  {
    if OccursAt(s, pat, i) then Some(i)
    else if i == |s| then None
    else IndexFrom(s, pat, i + 1)
  }

  /**
   * `s.split(sep)` for a non-empty separator: the text between the
   * occurrences of `sep` found scanning left to right without overlap.
   */
  function Split(s: string, sep: string): (parts: seq<string>)
    requires sep != []
    ensures |parts| >= 1
    decreases |s|
  {
    match IndexFrom(s, sep, 0)
    case None => [s]
    case Some(i) => [s[..i]] + Split(s[i + |sep|..], sep)
  }

  /** The split at the leftmost occurrence `i` of the separator. */
  lemma SplitAt(s: string, sep: string, i: nat)
    requires sep != [] && OccursAt(s, sep, i)
    requires forall j :: 0 <= j < i ==> !OccursAt(s, sep, j)
    ensures Split(s, sep) == [s[..i]] + Split(s[i + |sep|..], sep)
  {
    IndexFromFirst(s, sep, i);
  }

  /** The first occurrence is the one `find` reports. */
  lemma IndexFromFirst(s: string, pat: string, i: nat)
    requires OccursAt(s, pat, i)
    requires forall j :: 0 <= j < i ==> !OccursAt(s, pat, j)
    ensures IndexFrom(s, pat, 0) == Some(i)
  {
    var r := IndexFrom(s, pat, 0);
    assert r.Some?;
    assert r.value <= i;
  }

  /** A text without the separator splits into itself. */
  lemma SplitNone(s: string, sep: string)
    requires sep != []
    requires forall j :: 0 <= j ==> !OccursAt(s, sep, j)
    ensures Split(s, sep) == [s]
  {
    assert IndexFrom(s, sep, 0).None?;
  }

  /** Joining the pieces of a split with the separator gives the text back. */
  lemma {:induction false} SplitJoin(s: string, sep: string)
    requires sep != []
    ensures JoinWith(Split(s, sep), sep) == s
    decreases |s|
  {
    var r := IndexFrom(s, sep, 0);
    if r.Some? {
      var i := r.value;
      var rest := s[i + |sep|..];
      var tail := Split(rest, sep);
      SplitJoin(rest, sep);
      var parts := Split(s, sep);
      assert parts == [s[..i]] + tail;
      assert parts[1..] == tail;
      assert JoinWith(parts, sep) == s[..i] + sep + JoinWith(tail, sep);
      assert s[i..i + |sep|] == sep;
      assert s == s[..i] + s[i..i + |sep|] + rest;
    }
  }

  /** No piece of a split contains the separator. */
  lemma {:induction false} SplitPiecesFree(s: string, sep: string)
    requires sep != []
    ensures forall k :: 0 <= k < |Split(s, sep)| ==> !Contains(Split(s, sep)[k], sep)
    decreases |s|
  {
    var r := IndexFrom(s, sep, 0);
    if r.None? {
      assert Split(s, sep) == [s];
    } else {
      var i := r.value;
      var rest := s[i + |sep|..];
      SplitPiecesFree(rest, sep);
      PrefixFree(s, sep, i);
      var parts := Split(s, sep);
      assert parts == [s[..i]] + Split(rest, sep);
      forall k | 0 <= k < |parts| ensures !Contains(parts[k], sep) {
        if k > 0 { assert parts[k] == Split(rest, sep)[k - 1]; }
      }
    }
  }

  /** Before the leftmost occurrence there is none. */
  lemma PrefixFree(s: string, sep: string, i: nat)
    requires sep != [] && i <= |s|
    requires forall j :: 0 <= j < i ==> !OccursAt(s, sep, j)
    ensures !Contains(s[..i], sep)
  {
    forall j ensures !OccursAt(s[..i], sep, j) {
      if 0 <= j && j + |sep| <= i {
        assert s[..i][j..j + |sep|] == s[j..j + |sep|];
        assert !OccursAt(s, sep, j);
      }
    }
  }

  /** The number of times `c` occurs in `s`. */
  function CountChar(s: string, c: char): nat {
    if s == [] then 0 else (if s[0] == c then 1 else 0) + CountChar(s[1..], c)
  }

  lemma {:induction false} CountCharAppend(a: string, b: string, c: char)
    ensures CountChar(a + b, c) == CountChar(a, c) + CountChar(b, c)
  {
    if a == [] {
      assert a + b == b;
    } else {
      assert (a + b)[1..] == a[1..] + b;
      CountCharAppend(a[1..], b, c);
    }
  }

  lemma OccursAtChar(s: string, c: char, j: int)
    requires 0 <= j < |s|
    ensures OccursAt(s, [c], j) <==> s[j] == c
  {
    assert s[j..j + 1] == [s[j]];
  }

  lemma {:induction false} CountCharNone(s: string, c: char)
    requires forall j :: 0 <= j < |s| ==> s[j] != c
    ensures CountChar(s, c) == 0
  {
    if s != [] { CountCharNone(s[1..], c); }
  }

  /** Splitting on one character gives one piece more than it has occurrences. */
  lemma {:induction false} SplitCharCount(s: string, c: char)
    ensures |Split(s, [c])| == CountChar(s, c) + 1
    decreases |s|
  {
    var r := IndexFrom(s, [c], 0);
    if r.None? {
      forall j | 0 <= j < |s| ensures s[j] != c { OccursAtChar(s, c, j); }
      CountCharNone(s, c);
    } else {
      var i := r.value;
      var rest := s[i + 1..];
      SplitCharCount(rest, c);
      forall j | 0 <= j < i ensures s[..i][j] != c { OccursAtChar(s, c, j); }
      CountCharNone(s[..i], c);
      OccursAtChar(s, c, i);
      assert s == s[..i] + ([c] + rest);
      CountCharAppend(s[..i], [c] + rest, c);
      assert ([c] + rest)[1..] == rest;
    }
  }

  /** Part `p` of a joined text, followed by `sep`, meets no occurrence of `sep` before its end. */
  ghost predicate EndsCleanly(p: string, sep: string) {
    forall i :: 0 <= i < |p| ==> !OccursAt(p + sep, sep, i)
  }

  /**
   * Splitting a `sep`-joined text gives the parts back, provided no
   * occurrence of `sep` starts inside a part.
   */
  lemma {:induction false} SplitOfJoin(parts: seq<string>, sep: string)
    requires sep != [] && |parts| >= 1
    requires forall k :: 0 <= k < |parts| - 1 ==> EndsCleanly(parts[k], sep)
    requires !Contains(parts[|parts| - 1], sep)
    ensures Split(JoinWith(parts, sep), sep) == parts
  {
    if |parts| == 1 {
      SplitNone(parts[0], sep);
    } else {
      var rest := JoinWith(parts[1..], sep);
      assert JoinWith(parts, sep) == (parts[0] + sep) + rest;
      SplitOfCons(parts[0], sep, rest);
      SplitOfJoin(parts[1..], sep);
      assert parts == [parts[0]] + parts[1..];
    }
  }

  /** A part that ends cleanly, then the separator: the split takes that part first. */
  lemma SplitOfCons(p: string, sep: string, rest: string)
    requires sep != [] && EndsCleanly(p, sep)
    ensures Split((p + sep) + rest, sep) == [p] + Split(rest, sep)
  {
    var s := (p + sep) + rest;
    assert s[|p|..|p| + |sep|] == sep;
    forall i | 0 <= i < |p| ensures !OccursAt(s, sep, i) {
      assert !OccursAt(p + sep, sep, i);
      assert s[i..i + |sep|] == (p + sep)[i..i + |sep|];
    }
    SplitAt(s, sep, |p|);
    assert s[..|p|] == p;
    assert s[|p| + |sep|..] == rest;
  }
}
