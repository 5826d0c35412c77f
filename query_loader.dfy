/**
 * `load_named_queries`: the text of an SQL file is split at header lines
 * `-- name: <title>` (the regular expression `^--\s*name:\s*(.+)$` with
 * `re.M`), and each title is paired with the text up to the next header.
 * Reading the file is outside the model: the loader takes its text.
 */
module QueryLoader {
  import opened Wrappers
  import opened PyText

  /** One match of the header pattern: the header line is
      `txt[start..end]` and `group` is the captured title text. */
  datatype Match = Match(start: nat, end: nat, group: string)

  /** A title and its query, both stripped. */
  datatype Section = Section(title: string, body: string)

  /** `^` under `re.M`: the start of the text or just after a newline. */
  predicate IsLineStart(txt: string, p: nat) {
    p == 0 || (0 < p <= |txt| && txt[p - 1] == '\n')
  }

  /** Where the line starting at `p` ends: the next newline, or the end. */
  function LineEnd(txt: string, p: nat): (e: nat)
    requires p <= |txt|
    ensures p <= e <= |txt|
    ensures e == |txt| || txt[e] == '\n'
    decreases |txt| - p
  {
    if p == |txt| || txt[p] == '\n' then p else LineEnd(txt, p + 1)
  }

  /** No newline comes before the end of the line. */
  lemma {:induction false} LineEndFirst(txt: string, p: nat, q: nat)
    requires p <= |txt| && p <= q < LineEnd(txt, p)
    ensures txt[q] != '\n'
    decreases |txt| - p
  {
    if q > p {
      LineEndFirst(txt, p + 1, q);
    }
  }

  /** What `\s*(.+)$` captures from the non-empty rest `r` of the line
      after `name:`: the text after the leading whitespace or, when the rest
      is all whitespace, its last character (the regex backtracks so that
      `.+` matches one character). */
  function Capture(r: string): (g: string)
    requires r != []
    ensures g != [] && |g| <= |r|
    decreases |r|
  {
    if |r| > 1 && IsSpace(r[0]) then Capture(r[1..]) else r
  }

  /** The capture is the end of `r`, after nothing but whitespace, and it
      starts with a non-space unless it is a single character. */
  lemma {:induction false} CaptureShape(r: string)
    requires r != []
    ensures var g := Capture(r);
            && g == r[|r| - |g|..] && AllSpace(r[..|r| - |g|])
            && (|g| > 1 ==> !IsSpace(g[0]))
    decreases |r|
  {
    if |r| > 1 && IsSpace(r[0]) {
      var t := r[1..];
      CaptureShape(t);
      var g := Capture(t);
      assert t[|t| - |g|..] == r[|r| - |g|..];
      var pre := r[..|r| - |g|];
      forall q | 0 <= q < |pre|
        ensures IsSpace(pre[q])
      {
        if q > 0 { assert pre[q] == t[..|t| - |g|][q - 1]; }
      }
    } else {
      assert r[|r| - |r|..] == r && r[..0] == [];
    }
  }

  /** `\s*name:\s*(.+)$` on the rest of a header line after `--`. */
  function NameField(s: string): (g: Option<string>)
    ensures g.Some? ==> |s| > 5 && g.value != [] && |g.value| <= |s| - 5
    decreases |s|
  {
    if s != [] && IsSpace(s[0]) then NameField(s[1..])
    else if |s| > 5 && s[..5] == "name:" then Some(Capture(s[5..]))
    else None
  }

  /**
   * The header pattern `--\s*name:\s*(.+)$` on one line (which holds no
   * newline), anchored at the line's start; the result is the captured
   * title text.
   */
  function HeaderGroup(line: string): (g: Option<string>)
    ensures g.Some? ==> |line| > 7 && StartsWith(line, "--") && g.value != []
  {
    if StartsWith(line, "--") then NameField(line[2..]) else None
  }

  /** `name:` sits at `i` of `s`, after nothing but whitespace and before a
      non-empty rest, and `g` is what the group captures of that rest. */
  predicate NameAt(s: string, i: nat, g: string) {
    i + 5 < |s| && AllSpace(s[..i]) && s[i..i + 5] == "name:" && g == Capture(s[i + 5..])
  }

  /** `\s*name:\s*(.+)$` matches exactly when `name:` follows leading
      whitespace, and then captures from the rest of the line. */
  lemma {:induction false} NameFieldIff(s: string, g: string)
    ensures NameField(s) == Some(g) <==> exists i: nat :: NameAt(s, i, g)
    decreases |s|
  {
    if s != [] && IsSpace(s[0]) {
      var t := s[1..];
      NameFieldIff(t, g);
      if NameField(s) == Some(g) {
        var i: nat :| NameAt(t, i, g);
        NameShift(s, i, g);
      }
      if exists i: nat :: NameAt(s, i, g) {
        var i: nat :| NameAt(s, i, g);
        NameUnshift(s, i, g);
      }
    } else {
      forall i: nat | NameAt(s, i, g)
        ensures i == 0 && s[..5] == "name:"
      {
        assert s[0..5] == s[..5];
      }
      if |s| > 5 && s[..5] == "name:" {
        assert s[..0] == [] && s[0..5] == s[..5];
        if g == Capture(s[5..]) {
          assert NameAt(s, 0, g);
        }
        if exists i: nat :: NameAt(s, i, g) {
          var i: nat :| NameAt(s, i, g);
          assert i == 0;
        }
      }
    }
  }

  /** A match in the rest after a leading space is a match one further on. */
  lemma NameShift(s: string, i: nat, g: string)
    requires s != [] && IsSpace(s[0]) && NameAt(s[1..], i, g)
    ensures NameAt(s, i + 1, g)
  {
    var t := s[1..];
    assert s[i + 1..i + 6] == t[i..i + 5] && s[i + 6..] == t[i + 5..];
    var pre := s[..i + 1];
    forall q | 0 <= q < i + 1
      ensures IsSpace(pre[q])
    {
      if q > 0 { assert pre[q] == t[..i][q - 1]; }
    }
  }

  /** A match after a leading space starts past that space. */
  lemma NameUnshift(s: string, i: nat, g: string)
    requires s != [] && IsSpace(s[0]) && NameAt(s, i, g)
    ensures i > 0 && NameAt(s[1..], i - 1, g)
  {
    var t := s[1..];
    assert t[i - 1..i + 4] == s[i..i + 5] && t[i + 4..] == s[i + 5..];
    var pre := t[..i - 1];
    forall q | 0 <= q < i - 1
      ensures IsSpace(pre[q])
    {
      assert pre[q] == s[..i][q + 1];
    }
  }

  /** A header line is `--`, then `name:` after whitespace, and its title is
      what the group captures of the rest of the line. */
  lemma HeaderGroupIff(line: string, g: string)
    ensures HeaderGroup(line) == Some(g) <==> StartsWith(line, "--") && exists i: nat :: NameAt(line[2..], i, g)
  {
    if StartsWith(line, "--") {
      NameFieldIff(line[2..], g);
    }
  }

  /** A line that matches the header pattern starts at `q`. */
  predicate HeaderAt(txt: string, q: nat)
    requires q <= |txt|
  {
    IsLineStart(txt, q) && HeaderGroup(txt[q..LineEnd(txt, q)]).Some?
  }

  /** Matches lie inside the text, in order, without overlapping. */
  predicate Ordered(txt: string, ms: seq<Match>) {
    && (forall k :: 0 <= k < |ms| ==> ms[k].start < ms[k].end <= |txt|)
    && (forall j, k :: 0 <= j < k < |ms| ==> ms[j].end < ms[k].start)
  }

  /** Match `m` spans the whole line starting at its own line start. */
  predicate Located(txt: string, m: Match) {
    && m.start <= |txt|
    && IsLineStart(txt, m.start)
    && m.end == LineEnd(txt, m.start)
  }

  /** Match `m` is located, and `m.group` is what the pattern captures
      on its line. */
  predicate SoundMatch(txt: string, m: Match) {
    && Located(txt, m)
    && HeaderGroup(txt[m.start..m.end]) == Some(m.group)
  }

  /** The match of the line starting at `p`: one if it is a header line,
      none otherwise. */
  function LineMatch(txt: string, p: nat): (m: seq<Match>)
    requires p <= |txt|
    ensures |m| <= 1
    ensures forall k :: 0 <= k < |m| ==> m[k].start == p < m[k].end == LineEnd(txt, p)
    ensures IsLineStart(txt, p) ==> forall k :: 0 <= k < |m| ==> Located(txt, m[k])
  {
    var e := LineEnd(txt, p);
    var h := HeaderGroup(txt[p..e]);
    assert h.Some? ==> p < e by { assert |txt[p..e]| == e - p; }
    if h.Some? then [Match(p, e, h.value)] else []
  }

  /**
   * The scan of `re.split` from the line start `p` onwards: each header
   * line is found at the start of a line, in order (what each match
   * captures is `FindHeadersSound`, completeness `FindHeadersComplete`).
   */
  function FindHeaders(txt: string, p: nat): (ms: seq<Match>)
    requires p <= |txt| && IsLineStart(txt, p)
    ensures Ordered(txt, ms)
    ensures forall k :: 0 <= k < |ms| ==> p <= ms[k].start
    decreases |txt| - p
  {
    var e := LineEnd(txt, p);
    var first := LineMatch(txt, p);
    if e == |txt| then first
    else
      var rest := FindHeaders(txt, e + 1);
      ScanAppend(txt, p, e, first, rest);
      first + rest
  }

  /** The match of the line at `p` followed by those of later lines are
      in order. */
  lemma ScanAppend(txt: string, p: nat, e: nat, first: seq<Match>, rest: seq<Match>)
    requires p <= e < |txt|
    requires |first| <= 1 && forall k :: 0 <= k < |first| ==> first[k].start == p < first[k].end == e
    requires Ordered(txt, rest) && forall k :: 0 <= k < |rest| ==> e + 1 <= rest[k].start
    ensures Ordered(txt, first + rest)
    ensures forall k :: 0 <= k < |first + rest| ==> p <= (first + rest)[k].start
  {
    var ms := first + rest;
    var n := |first|;
    forall k | 0 <= k < |ms|
      ensures p <= ms[k].start && ms[k].start < ms[k].end <= |txt|
      ensures k >= n ==> ms[k] == rest[k - n]
    {
      if k >= n { assert ms[k] == rest[k - n]; }
    }
    forall j, k | 0 <= j < k < |ms|
      ensures ms[j].end < ms[k].start
    {
      if j >= n {
        assert ms[j] == rest[j - n] && ms[k] == rest[k - n];
      } else {
        assert ms[k] == rest[k - n];
      }
    }
  }

  /** Every header line from `p` on is among the matches. */
  lemma {:induction false} FindHeadersComplete(txt: string, p: nat, q: nat)
    requires p <= q <= |txt| && IsLineStart(txt, p) && HeaderAt(txt, q)
    ensures exists k :: 0 <= k < |FindHeaders(txt, p)| && FindHeaders(txt, p)[k].start == q
    decreases |txt| - p
  {
    if q == p {
      FirstHeaderFound(txt, p);
    } else {
      NextLineStart(txt, p, q);
      var e := LineEnd(txt, p);
      FindHeadersComplete(txt, e + 1, q);
      var k :| 0 <= k < |FindHeaders(txt, e + 1)| && FindHeaders(txt, e + 1)[k].start == q;
      LaterHeaderFound(txt, p, k);
    }
  }

  /** A header on the line at `p` is the first match from `p`. */
  lemma FirstHeaderFound(txt: string, p: nat)
    requires p <= |txt| && IsLineStart(txt, p) && HeaderAt(txt, p)
    ensures 0 < |FindHeaders(txt, p)| && FindHeaders(txt, p)[0].start == p
  {
    var ms := FindHeaders(txt, p);
    var first := LineMatch(txt, p);
    var e := LineEnd(txt, p);
    HeaderLineMatch(txt, p);
    if e < |txt| {
      assert ms == first + FindHeaders(txt, e + 1);
    }
    assert ms[0] == first[0];
  }

  /** Match `k` of the scan after the line at `p` is among the matches from `p`. */
  lemma LaterHeaderFound(txt: string, p: nat, k: nat)
    requires p <= |txt| && IsLineStart(txt, p) && LineEnd(txt, p) < |txt|
    requires k < |FindHeaders(txt, LineEnd(txt, p) + 1)|
    ensures var n := |LineMatch(txt, p)|;
            && n + k < |FindHeaders(txt, p)|
            && FindHeaders(txt, p)[n + k] == FindHeaders(txt, LineEnd(txt, p) + 1)[k]
  {
    FindHeadersStep(txt, p);
    IndexAppend(LineMatch(txt, p), FindHeaders(txt, LineEnd(txt, p) + 1), k);
  }

  /** The scan from `p` is the match of its line followed by the scan
      from the next line. */
  lemma FindHeadersStep(txt: string, p: nat)
    requires p <= |txt| && IsLineStart(txt, p) && LineEnd(txt, p) < |txt|
    ensures FindHeaders(txt, p) == LineMatch(txt, p) + FindHeaders(txt, LineEnd(txt, p) + 1)
  {
  }

  lemma IndexAppend<T>(a: seq<T>, b: seq<T>, k: nat)
    requires k < |b|
    ensures |a| + k < |a + b| && (a + b)[|a| + k] == b[k]
  {
  }

  /** A header line has its match. */
  lemma HeaderLineMatch(txt: string, p: nat)
    requires p <= |txt| && HeaderAt(txt, p)
    ensures |LineMatch(txt, p)| == 1 && LineMatch(txt, p)[0].start == p
  {
  }

  /** A later line start lies beyond the end of the line at `p`. */
  lemma NextLineStart(txt: string, p: nat, q: nat)
    requires p < q <= |txt| && IsLineStart(txt, q)
    ensures LineEnd(txt, p) < q
  {
    if q <= LineEnd(txt, p) {
      LineEndFirst(txt, p, q - 1);
    }
  }

  /** Every match of `ms` is sound. */
  predicate AllSound(txt: string, ms: seq<Match>) {
    forall k :: 0 <= k < |ms| ==> SoundMatch(txt, ms[k])
  }

  /** Each match of the scan carries what the pattern captures on its line. */
  lemma {:induction false} FindHeadersSound(txt: string, p: nat)
    requires p <= |txt| && IsLineStart(txt, p)
    ensures AllSound(txt, FindHeaders(txt, p))
    decreases |txt| - p
  {
    var e := LineEnd(txt, p);
    var first := LineMatch(txt, p);
    assert AllSound(txt, first);
    if e < |txt| {
      FindHeadersSound(txt, e + 1);
      SoundAppend(txt, first, FindHeaders(txt, e + 1));
    }
  }

  lemma SoundAppend(txt: string, a: seq<Match>, b: seq<Match>)
    requires AllSound(txt, a) && AllSound(txt, b)
    ensures AllSound(txt, a + b)
  {
    forall k | 0 <= k < |a + b|
      ensures SoundMatch(txt, (a + b)[k])
    {
      if k >= |a| { assert (a + b)[k] == b[k - |a|]; }
    }
  }

  /** The header matches of the whole text. */
  function Headers(txt: string): (ms: seq<Match>)
    ensures Ordered(txt, ms)
  {
    FindHeaders(txt, 0)
  }

  /** Header `k` carries what the pattern captures on its line. */
  lemma HeadersSound(txt: string, k: nat)
    requires k < |Headers(txt)|
    ensures SoundMatch(txt, Headers(txt)[k])
  {
    FindHeadersSound(txt, 0);
  }

  /** Every header line of the text is matched. */
  lemma HeadersComplete(txt: string, q: nat)
    requires q <= |txt| && HeaderAt(txt, q)
    ensures exists k :: 0 <= k < |Headers(txt)| && Headers(txt)[k].start == q
  {
    FindHeadersComplete(txt, 0, q);
    var ms := FindHeaders(txt, 0);
    var k :| 0 <= k < |ms| && ms[k].start == q;
    assert Headers(txt)[k].start == q;
  }

  /** The text between header `k` and the next header (or the end). */
  function Body(txt: string, ms: seq<Match>, k: nat): (b: string)
    requires Ordered(txt, ms) && k < |ms|
  {
    txt[ms[k].end..if k + 1 < |ms| then ms[k + 1].start else |txt|]
  }

  /** Title and body pieces of `re.split` from header `k` on. */
  function SplitTail(txt: string, ms: seq<Match>, k: nat): (r: seq<string>)
    requires Ordered(txt, ms) && k <= |ms|
    ensures |r| == 2 * (|ms| - k)
    ensures forall j :: 0 <= j < |ms| - k ==> r[2 * j] == ms[k + j].group && r[2 * j + 1] == Body(txt, ms, k + j)
    decreases |ms| - k
  {
    if k == |ms| then []
    else
      var rest := SplitTail(txt, ms, k + 1);
      var r := [ms[k].group, Body(txt, ms, k)] + rest;
      SplitTailStep(txt, ms, k, rest, r);
      r
  }

  /** One step of `SplitTail`: the pieces of header `k` before the rest. */
  lemma SplitTailStep(txt: string, ms: seq<Match>, k: nat, rest: seq<string>, r: seq<string>)
    requires Ordered(txt, ms) && k < |ms|
    requires |rest| == 2 * (|ms| - k - 1)
    requires forall j :: 0 <= j < |ms| - (k + 1) ==> rest[2 * j] == ms[k + 1 + j].group && rest[2 * j + 1] == Body(txt, ms, k + 1 + j)
    requires r == [ms[k].group, Body(txt, ms, k)] + rest
    ensures forall j :: 0 <= j < |ms| - k ==> r[2 * j] == ms[k + j].group && r[2 * j + 1] == Body(txt, ms, k + j)
  {
    forall j | 0 <= j < |ms| - k
      ensures r[2 * j] == ms[k + j].group && r[2 * j + 1] == Body(txt, ms, k + j)
    {
      if j > 0 {
        var i := j - 1;
        assert r[2 * j] == rest[2 * i] && r[2 * j + 1] == rest[2 * i + 1];
        assert k + 1 + i == k + j;
      }
    }
  }

  /**
   * `re.split(pattern, txt, flags=re.M)`: the text before the first
   * header, then for each header its captured title and the text up to
   * the next header.
   */
  function RegexSplit(txt: string): (parts: seq<string>)
    ensures var ms := Headers(txt);
            && |parts| == 2 * |ms| + 1
            && parts[0] == txt[..if ms == [] then |txt| else ms[0].start]
            && forall k :: 0 <= k < |ms| ==> parts[2 * k + 1] == ms[k].group && parts[2 * k + 2] == Body(txt, ms, k)
  {
    var ms := Headers(txt);
    var pre := txt[..if ms == [] then |txt| else ms[0].start];
    var tail := SplitTail(txt, ms, 0);
    PreambleFirst(txt, ms, pre, tail);
    [pre] + tail
  }

  /** Putting the preamble in front moves each title and body up by one. */
  lemma PreambleFirst(txt: string, ms: seq<Match>, pre: string, tail: seq<string>)
    requires Ordered(txt, ms) && |tail| == 2 * |ms|
    requires forall j :: 0 <= j < |ms| ==> tail[2 * j] == ms[0 + j].group && tail[2 * j + 1] == Body(txt, ms, 0 + j)
    ensures var parts := [pre] + tail;
            && |parts| == 2 * |ms| + 1 && parts[0] == pre
            && forall k :: 0 <= k < |ms| ==> parts[2 * k + 1] == ms[k].group && parts[2 * k + 2] == Body(txt, ms, k)
  {
    var parts := [pre] + tail;
    forall k | 0 <= k < |ms|
      ensures parts[2 * k + 1] == ms[k].group && parts[2 * k + 2] == Body(txt, ms, k)
    {
      assert parts[2 * k + 1] == tail[2 * k] && parts[2 * k + 2] == tail[2 * k + 1];
    }
  }

  /** The pieces the loop of `load_named_queries` reads: pair `k` is
      `parts[2 * k + 1]` (a title) and `parts[2 * k + 2]` (its query). */
  function Pairs(parts: seq<string>): (ps: seq<(string, string)>)
    ensures 2 * |ps| + 1 <= |parts| || (parts == [] && ps == [])
    ensures |parts| <= 2 * |ps| + 2
    ensures forall k :: 0 <= k < |ps| ==> ps[k] == (parts[2 * k + 1], parts[2 * k + 2])
    decreases |parts|
  {
    if |parts| < 3 then []
    else
      var rest := Pairs(parts[2..]);
      var ps := [(parts[1], parts[2])] + rest;
      PairsStep(parts, rest, ps);
      ps
  }

  /** One step of `Pairs`: the first pair before the pairs of the rest. */
  lemma PairsStep(parts: seq<string>, rest: seq<(string, string)>, ps: seq<(string, string)>)
    requires |parts| >= 3 && 2 * |rest| + 1 <= |parts| - 2
    requires forall k :: 0 <= k < |rest| ==> rest[k] == (parts[2..][2 * k + 1], parts[2..][2 * k + 2])
    requires ps == [(parts[1], parts[2])] + rest
    ensures forall k :: 0 <= k < |ps| ==> ps[k] == (parts[2 * k + 1], parts[2 * k + 2])
  {
    forall k | 0 <= k < |ps|
      ensures ps[k] == (parts[2 * k + 1], parts[2 * k + 2])
    {
      if k > 0 {
        var j := k - 1;
        assert ps[k] == rest[j];
        assert parts[2..][2 * j + 1] == parts[2 * k + 1] && parts[2..][2 * j + 2] == parts[2 * k + 2];
      }
    }
  }

  /** Pair `k` is read from `parts[i]` and `parts[i + 1]`, `i == 2 * k + 1`. */
  lemma PairAt(parts: seq<string>, k: nat, i: nat)
    requires k < |Pairs(parts)| && i == 2 * k + 1
    ensures i + 1 < |parts| && Pairs(parts)[k] == (parts[i], parts[i + 1])
  {
  }

  /** `parts[i].strip()` and `parts[i + 1].strip()` for each pair. */
  function Stripped(ps: seq<(string, string)>): (secs: seq<Section>)
    ensures |secs| == |ps|
  {
    seq(|ps|, k requires 0 <= k < |ps| => Section(Strip(ps[k].0), Strip(ps[k].1)))
  }

  /** The stripped pairs of the split of `txt`. */
  function Sections(txt: string): (secs: seq<Section>) {
    Stripped(Pairs(RegexSplit(txt)))
  }

  /** Pair `k` is header `k`'s stripped title and the stripped text after
      it, and there is one pair per header. */
  lemma SectionOfHeader(txt: string, k: nat)
    requires k < |Headers(txt)|
    ensures |Sections(txt)| == |Headers(txt)|
    ensures Sections(txt)[k] == Section(Strip(Headers(txt)[k].group), Strip(Body(txt, Headers(txt), k)))
  {
  }

  /** `if title and sql`: a pair is kept only when both parts are non-empty. */
  predicate Kept(s: Section) {
    s.title != "" && s.body != ""
  }

  /** `names[title] = sql` for each kept pair, in order. */
  function Catalog(secs: seq<Section>): (names: map<string, string>)
    decreases |secs|
  {
    if secs == [] then map[]
    else
      var last := secs[|secs| - 1];
      var before := Catalog(secs[..|secs| - 1]);
      if Kept(last) then before[last.title := last.body] else before
  }

  /** The dictionary `load_named_queries` returns for the text `txt`. */
  function NamedQueries(txt: string): (names: map<string, string>) {
    Catalog(Sections(txt))
  }

  /** `load_named_queries` on the text of the file. */
  method LoadNamedQueries(txt: string) returns (names: map<string, string>)
    ensures names == NamedQueries(txt)
  {
    var parts := RegexSplit(txt);
    OddLength(parts, |Headers(txt)|);
    names := CollectNames(parts);
  }

  /** A split has a preamble and then whole title and query pairs. */
  lemma OddLength(parts: seq<string>, n: nat)
    requires |parts| == 2 * n + 1
    ensures |parts| % 2 == 1
  {
  }

  /** The loop of `load_named_queries` over the odd indices of the split:
      `parts[i]` is a title and `parts[i + 1]` the query after it. */
  method CollectNames(parts: seq<string>) returns (names: map<string, string>)
    requires |parts| % 2 == 1
    ensures names == Catalog(Stripped(Pairs(parts)))
  {
    ghost var secs := Stripped(Pairs(parts));
    assert |parts| == 2 * |secs| + 1;
    names := map[];
    var i := 1;
    ghost var k := 0;
    while i < |parts|
      invariant 0 <= k <= |secs| && i == 2 * k + 1 && |parts| == 2 * |secs| + 1
      invariant names == Catalog(secs[..k])
      decreases |parts| - i
    {
      var title := Strip(parts[i]);
      var sql := Strip(parts[i + 1]);
      CatalogStep(secs, k);
      PairAt(parts, k, i);
      if title != "" && sql != "" {
        names := names[title := sql];
      }
      i := i + 2;
      k := k + 1;
    }
    assert secs[..k] == secs;
  }

  /** Extending the pairs by one adds that pair's assignment, if kept. */
  lemma CatalogStep(secs: seq<Section>, k: nat)
    requires k < |secs|
    ensures Catalog(secs[..k + 1]) == if Kept(secs[k]) then Catalog(secs[..k])[secs[k].title := secs[k].body] else Catalog(secs[..k])
  {
    assert secs[..k + 1][..k] == secs[..k];
  }

  /** A title is a key exactly when some header carries it with a
      non-empty body. */
  lemma {:induction false} CatalogKeys(secs: seq<Section>, t: string)
    ensures t in Catalog(secs) <==> exists k :: 0 <= k < |secs| && Kept(secs[k]) && secs[k].title == t
    decreases |secs|
  {
    if secs != [] {
      var init := secs[..|secs| - 1];
      CatalogKeys(init, t);
      assert forall k :: 0 <= k < |init| ==> init[k] == secs[k];
    }
  }

  /** A duplicated title keeps the body of its last kept occurrence. */
  lemma {:induction false} CatalogLastWins(secs: seq<Section>, k: nat)
    requires k < |secs| && Kept(secs[k])
    requires forall j :: k < j < |secs| && Kept(secs[j]) ==> secs[j].title != secs[k].title
    ensures secs[k].title in Catalog(secs) && Catalog(secs)[secs[k].title] == secs[k].body
    decreases |secs|
  {
    if k < |secs| - 1 {
      var init := secs[..|secs| - 1];
      assert forall j :: 0 <= j < |init| ==> init[j] == secs[j];
      CatalogLastWins(init, k);
    }
  }

  /** Text with no header line yields no queries. */
  lemma NoHeaderNoQueries(txt: string)
    requires forall q :: 0 <= q <= |txt| ==> !HeaderAt(txt, q)
    ensures NamedQueries(txt) == map[]
  {
    var ms := Headers(txt);
    if ms != [] {
      HeadersSound(txt, 0);
      assert HeaderAt(txt, ms[0].start);
    }
  }

  /** Every stored title and every stored query is non-empty. */
  lemma {:induction false} CatalogNonEmpty(secs: seq<Section>)
    ensures forall t :: t in Catalog(secs) ==> t != "" && Catalog(secs)[t] != ""
    decreases |secs|
  {
    if secs != [] {
      CatalogNonEmpty(secs[..|secs| - 1]);
    }
  }

  /** A title is a key of the result exactly when some header line of the
      text carries it, once stripped, and the text after that header is not
      blank. */
  lemma QueryTitles(txt: string, t: string)
    ensures t in NamedQueries(txt) <==>
              exists k :: 0 <= k < |Headers(txt)| && t != "" && Strip(Headers(txt)[k].group) == t
                          && Strip(Body(txt, Headers(txt), k)) != ""
  {
    var ms := Headers(txt);
    var secs := Sections(txt);
    CatalogKeys(secs, t);
    if t in NamedQueries(txt) {
      var k :| 0 <= k < |secs| && Kept(secs[k]) && secs[k].title == t;
      SectionOfHeader(txt, k);
    }
    if exists k :: 0 <= k < |ms| && t != "" && Strip(ms[k].group) == t && Strip(Body(txt, ms, k)) != "" {
      var k :| 0 <= k < |ms| && t != "" && Strip(ms[k].group) == t && Strip(Body(txt, ms, k)) != "";
      SectionOfHeader(txt, k);
      assert Kept(secs[k]) && secs[k].title == t;
    }
  }

  /** The loop starts at index 1: the text before the first header never
      contributes a query. */
  lemma PreambleIgnored(parts: seq<string>, pre: string)
    requires parts != []
    ensures Pairs([pre] + parts[1..]) == Pairs(parts)
  {
    var other := [pre] + parts[1..];
    var a := Pairs(other);
    var b := Pairs(parts);
    assert |other| == |parts|;
    forall k | 0 <= k < |a| && k < |b|
      ensures a[k] == b[k]
    {
      assert other[2 * k + 1] == parts[2 * k + 1] && other[2 * k + 2] == parts[2 * k + 2];
    }
  }

  /** A file with one named query: `-- name: q` followed by `SELECT 1`. */
  lemma OneQueryExample()
    ensures NamedQueries("-- name: q\nSELECT 1") == map["q" := "SELECT 1"]
  {
    ExampleSections();
    ExampleCatalog();
  }

  /** The one kept pair becomes the one entry of the dictionary. */
  lemma ExampleCatalog()
    ensures Catalog([Section("q", "SELECT 1")]) == map["q" := "SELECT 1"]
  {
    var secs := [Section("q", "SELECT 1")];
    assert secs[..0] == [];
  }

  /** The example splits into one title and one query. */
  lemma ExampleSections()
    ensures Sections("-- name: q\nSELECT 1") == [Section("q", "SELECT 1")]
  {
    var txt := "-- name: q\nSELECT 1";
    ExampleHeaders();
    SectionOfHeader(txt, 0);
    ExampleBody();
    ExampleStrip();
    StripUnspaced("q");
  }

  /** The text after the example's header is the newline and `SELECT 1`. */
  lemma ExampleBody()
    ensures Ordered("-- name: q\nSELECT 1", [Match(0, 10, "q")])
    ensures Body("-- name: q\nSELECT 1", [Match(0, 10, "q")], 0) == "\nSELECT 1"
  {
  }

  /** The example's only header is its first line. */
  lemma ExampleHeaders()
    ensures Headers("-- name: q\nSELECT 1") == [Match(0, 10, "q")]
  {
    var txt := "-- name: q\nSELECT 1";
    ExampleLines();
    assert txt[0..10] == "-- name: q";
    ExampleHeaderLine();
    ExampleSecondLine();
  }

  /** Where the example's two lines end. */
  lemma ExampleLines()
    ensures LineEnd("-- name: q\nSELECT 1", 0) == 10
    ensures LineEnd("-- name: q\nSELECT 1", 11) == 19
  {
    var txt := "-- name: q\nSELECT 1";
    assert txt[10] == '\n';
    assert forall p :: 0 <= p < 10 ==> txt[p] != '\n';
    LineEndStop(txt, 0, 10);
    assert forall p :: 11 <= p < |txt| ==> txt[p] != '\n';
    LineEndStop(txt, 11, |txt|);
  }

  /** The example's second line is not a header. */
  lemma ExampleSecondLine()
    ensures FindHeaders("-- name: q\nSELECT 1", 11) == []
  {
    var txt := "-- name: q\nSELECT 1";
    ExampleLines();
    assert txt[11..19][..2] == "SE";
  }

  /** The header line captures `q`. */
  lemma ExampleHeaderLine()
    ensures HeaderGroup("-- name: q") == Some("q")
  {
    assert "-- name: q"[..2] == "--" && "-- name: q"[2..] == " name: q";
    ExampleNameField();
  }

  /** The rest of the header line after `--` captures `q`. */
  lemma ExampleNameField()
    ensures NameField(" name: q") == Some("q")
  {
    assert IsSpace(' ') && " name: q"[1..] == "name: q";
    ExampleNameWord();
    ExampleCapture();
  }

  /** `name:` is read, and what follows it is ` q`. */
  lemma ExampleNameWord()
    ensures NameField("name: q") == Some(Capture(" q"))
  {
    var s := "name: q";
    assert !IsSpace(s[0]);
    assert s[..5] == "name:";
    assert s[5..] == " q";
  }

  /** `\s*(.+)$` on ` q` skips the space and captures `q`. */
  lemma ExampleCapture()
    ensures Capture(" q") == "q"
  {
    assert IsSpace(' ') && " q"[1..] == "q";
  }

  /** The query after the header, stripped. */
  lemma ExampleStrip()
    ensures Strip("\nSELECT 1") == "SELECT 1"
  {
    var body := "\nSELECT 1";
    assert IsSpace('\n') && body[1..] == "SELECT 1";
    StripUnspaced("SELECT 1");
  }

  /** The line ends at the first newline from `p`, or at the end. */
  lemma {:induction false} LineEndStop(txt: string, p: nat, e: nat)
    requires p <= e <= |txt| && (e == |txt| || txt[e] == '\n')
    requires forall q :: p <= q < e ==> txt[q] != '\n'
    ensures LineEnd(txt, p) == e
    decreases e - p
  {
    if p < e {
      LineEndStop(txt, p + 1, e);
    }
  }
}
