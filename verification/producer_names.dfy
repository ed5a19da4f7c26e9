/** Splitting the raw "producers" column into individual names
    (`WinningMovieRepositoryAdapter.parseProducers`): trim, strip one pair of
    surrounding double quotes, split on the regex `,|\s+and\s+`, trim every
    piece and drop the empty ones. */
module ProducerNames {
  import opened Wrappers
  import opened Seqs
  import opened JavaText

  /** `substring(begin, end)` on a text of the given length was out of range. */
  datatype ParseError = StringIndexOutOfBounds(begin: int, end: int, length: int)

  /** `u` wrapped in one pair of double quotes. */
  function Quote(u: string): string {
    "\"" + u + "\""
  }

  /** Drops one surrounding pair of double quotes from already trimmed text.
      A lone `"` both starts and ends with a quote, and `substring(1, 0)` then
      throws. */
  function Unquote(t: string): (r: Result<string, ParseError>)
    ensures r.Failure? <==> t == "\""
    ensures r.Success? ==> r.value == t || t == Quote(r.value)
  {
    if |t| > 0 && t[0] == '"' && t[|t| - 1] == '"' then
      if |t| == 1 then Failure(StringIndexOutOfBounds(1, 0, 1))
      else
        assert t == Quote(t[1..|t| - 1]);
        Success(t[1..|t| - 1])
    else Success(t)
  }

  /** Exactly one layer of quotes comes off; quotes inside survive. */
  lemma UnquoteQuote(u: string)
    ensures Unquote(Quote(u)) == Success(u)
  {
    var t := Quote(u);
    assert t[1..|t| - 1] == u;
  }

  /** Text that does not both start and end with a quote is left alone. */
  lemma UnquoteUnquoted(t: string)
    requires !(|t| > 0 && t[0] == '"' && t[|t| - 1] == '"')
    ensures Unquote(t) == Success(t)
  {
  }

  /* ---------------------------------------------------------------------
     The delimiter regex `,|\s+and\s+`. */

  predicate AllSpace(s: string) {
    forall i :: 0 <= i < |s| ==> IsSpace(s[i])
  }

  /** End of the run of `\s` characters that starts at `i`. */
  function SpaceRunEnd(c: string, i: nat): (j: nat)
    requires i <= |c|
    ensures i <= j <= |c|
    ensures AllSpace(c[i..j])
    ensures j == |c| || !IsSpace(c[j])
    decreases |c| - i
  {
    if i == |c| || !IsSpace(c[i]) then i
    else
      var j := SpaceRunEnd(c, i + 1);
      assert c[i..j] == [c[i]] + c[i + 1..j];
      j
  }

  /** The end of the match of `,|\s+and\s+` that `Matcher.find` reports at
      position `i`, if one starts there. The comma is tried first; `\s+` is
      greedy and backing off can never expose an `a`, so only the maximal
      run of whitespace can be followed by `and`. */
  function MatchAt(c: string, i: nat): (r: Option<nat>)
    requires i < |c|
    ensures r.Some? ==> i < r.value <= |c|
  {
    if c[i] == ',' then Some(i + 1)
    else if IsSpace(c[i]) then
      var j := SpaceRunEnd(c, i);
      if j + 3 < |c| && c[j..j + 3] == "and" && IsSpace(c[j + 3]) then
        Some(SpaceRunEnd(c, j + 3))
      else None
    else None
  }

  /** Text matched by `\s+and\s+` as a whole. */
  predicate IsAndDelimiter(d: string) {
    exists j | 0 < j < |d| :: j + 3 < |d| && AllSpace(d[..j]) && d[j..j + 3] == "and" && AllSpace(d[j + 3..])
  }

  /** Text matched by the whole delimiter regex. */
  predicate IsDelimiterText(d: string) {
    d == "," || IsAndDelimiter(d)
  }

  /** `t` has a whitespace, `and`, whitespace at `i - 1 .. i + 4`: the
      shortest text `\s+and\s+` can match. */
  predicate AndAt(t: string, i: int) {
    1 <= i && i + 3 < |t| && IsSpace(t[i - 1]) && t[i..i + 3] == "and" && IsSpace(t[i + 3])
  }

  /** `t` contains something the delimiter regex would match. */
  predicate HasDelimiter(t: string) {
    ',' in t || exists i | 0 < i < |t| :: AndAt(t, i)
  }

  /** What `MatchAt` reports is delimiter text. */
  lemma MatchIsDelimiter(c: string, i: nat)
    requires i < |c| && MatchAt(c, i).Some?
    ensures IsDelimiterText(c[i..MatchAt(c, i).value])
  {
    if c[i] != ',' {
      var j := SpaceRunEnd(c, i);
      var k := SpaceRunEnd(c, j + 3);
      var d := c[i..k];
      SliceOfSlice(c, i, k, 0, j - i);
      SliceOfSlice(c, i, k, j - i, j - i + 3);
      SliceOfSlice(c, i, k, j - i + 3, k - i);
      assert d[..j - i] == c[i..j];
      assert d[j - i + 3..] == c[j + 3..k];
      assert IsAndDelimiter(d);
    }
  }

  /** A delimiter occurrence is found by `MatchAt`. */
  lemma AndAtMatches(c: string, i: int)
    requires AndAt(c, i)
    ensures MatchAt(c, i - 1).Some?
  {
    assert c[i] == "and"[0];
    assert SpaceRunEnd(c, i) == i;
    assert SpaceRunEnd(c, i - 1) == i;
  }

  /** Every match starts at a delimiter occurrence. */
  lemma MatchHasDelimiter(c: string, i: nat)
    requires i < |c| && MatchAt(c, i).Some?
    ensures HasDelimiter(c)
  {
    if c[i] != ',' {
      var j := SpaceRunEnd(c, i);
      assert c[j - 1] in c[i..j];
      assert AndAt(c, j);
    }
  }

  /** Text in which no position starts a match contains no delimiter. */
  lemma SegmentFree(c: string, lo: nat, hi: nat)
    requires lo <= hi <= |c|
    requires forall p :: lo <= p < hi ==> MatchAt(c, p).None?
    ensures !HasDelimiter(c[lo..hi])
  {
    var t := c[lo..hi];
    forall q | 0 <= q < |t|
      ensures t[q] != ','
    {
      assert t[q] == c[lo + q];
      assert MatchAt(c, lo + q).None?;
    }
    AndAtInSlice(c, lo, hi);
    forall p | lo < p < hi && AndAt(c, p)
      ensures MatchAt(c, p - 1).Some?
    {
      AndAtMatches(c, p);
    }
  }

  lemma SliceOfSlice(c: string, lo: nat, hi: nat, a: nat, b: nat)
    requires lo <= hi <= |c| && a <= b <= hi - lo
    ensures c[lo..hi][a..b] == c[lo + a..lo + b]
  {
    var x := c[lo..hi][a..b];
    var y := c[lo + a..lo + b];
    assert |x| == |y|;
    forall j | 0 <= j < |x|
      ensures x[j] == y[j]
    {
      assert x[j] == c[lo..hi][a + j] == c[lo + a + j];
    }
  }

  /* ---------------------------------------------------------------------
     `String.split(regex)`. */

  /** A token's place in the split text: `c[lo..hi]`. */
  datatype Span = Span(lo: nat, hi: nat)

  /** Spans that lie inside `c`. */
  predicate SpansInside(c: string, sp: seq<Span>) {
    forall k :: 0 <= k < |sp| ==> sp[k].lo <= sp[k].hi <= |c|
  }

  /** Spans inside `c`, left to right, with a gap between each two. */
  predicate SpansOrdered(c: string, sp: seq<Span>) {
    && SpansInside(c, sp)
    && (forall k :: 0 <= k < |sp| - 1 ==> sp[k].hi < sp[k + 1].lo)
  }

  /** The leftmost-first scan `Pattern.split` performs: the token being
      collected started at `start`, and positions `start..i` start no match. */
  function SplitSpans(c: string, start: nat, i: nat): (r: seq<Span>)
    requires start <= i <= |c|
    ensures |r| >= 1 && r[0].lo == start && r[|r| - 1].hi == |c|
    ensures SpansInside(c, r)
    decreases |c| - i
  {
    if i == |c| then [Span(start, |c|)]
    else
      match MatchAt(c, i)
      case Some(k) => [Span(start, i)] + SplitSpans(c, k, k)
      case None => SplitSpans(c, start, i + 1)
  }

  /** Each gap between two spans is exactly one delimiter match. */
  predicate GapsAreMatches(c: string, r: seq<Span>) {
    forall k :: 0 <= k < |r| - 1 ==> r[k].hi < |c| && MatchAt(c, r[k].hi) == Some(r[k + 1].lo)
  }

  /** No position inside a span starts a match. */
  predicate SpansMatchFree(c: string, r: seq<Span>) {
    forall k, p :: 0 <= k < |r| && r[k].lo <= p < r[k].hi && p < |c| ==> MatchAt(c, p).None?
  }

  /** What the scan computes: the gaps are the leftmost delimiter matches. */
  lemma {:induction false} SplitSpansScan(c: string, start: nat, i: nat)
    requires start <= i <= |c|
    requires forall p :: start <= p < i ==> MatchAt(c, p).None?
    ensures GapsAreMatches(c, SplitSpans(c, start, i))
    ensures SpansMatchFree(c, SplitSpans(c, start, i))
    decreases |c| - i
  {
    if i < |c| {
      match MatchAt(c, i)
      case Some(k) =>
        SplitSpansScan(c, k, k);
        assert SplitSpans(c, start, i) == [Span(start, i)] + SplitSpans(c, k, k);
        ScanStepMatch(c, start, i, k, SplitSpans(c, k, k));
      case None =>
        SplitSpansScan(c, start, i + 1);
        assert SplitSpans(c, start, i) == SplitSpans(c, start, i + 1);
    }
  }

  /** A match at `i` closes the span collected so far. */
  lemma ScanStepMatch(c: string, start: nat, i: nat, k: nat, rest: seq<Span>)
    requires start <= i < |c| && |rest| > 0 && rest[0].lo == k
    requires forall p :: start <= p < i ==> MatchAt(c, p).None?
    requires MatchAt(c, i) == Some(k)
    requires GapsAreMatches(c, rest) && SpansMatchFree(c, rest)
    ensures GapsAreMatches(c, [Span(start, i)] + rest)
    ensures SpansMatchFree(c, [Span(start, i)] + rest)
  {
    var r := [Span(start, i)] + rest;
    assert forall j :: 1 <= j < |r| ==> r[j] == rest[j - 1];
  }

  lemma SplitSpansOrdered(c: string)
    ensures SpansOrdered(c, SplitSpans(c, 0, 0))
  {
    SplitSpansScan(c, 0, 0);
  }

  /** The texts the spans cover. */
  function TokensOf(c: string, sp: seq<Span>): (r: seq<string>)
    requires SpansInside(c, sp)
    ensures |r| == |sp|
    ensures forall k :: 0 <= k < |sp| ==> r[k] == c[sp[k].lo..sp[k].hi]
    decreases |sp|
  {
    if |sp| == 0 then []
    else [c[sp[0].lo..sp[0].hi]] + TokensOf(c, sp[1..])
  }

  /** The pieces of `c` between delimiter matches, trailing empties included. */
  function SplitTokens(c: string): (r: seq<string>)
    ensures |r| >= 1
  {
    TokensOf(c, SplitSpans(c, 0, 0))
  }

  /** `split` with limit 0 drops the trailing empty strings. */
  function DropTrailingEmpty(ts: seq<string>): (r: seq<string>)
    ensures |r| <= |ts| && r == ts[..|r|]
    ensures forall k :: |r| <= k < |ts| ==> ts[k] == []
    ensures |r| == 0 || r[|r| - 1] != []
  {
    if |ts| == 0 || ts[|ts| - 1] != [] then ts
    else DropTrailingEmpty(ts[..|ts| - 1])
  }

  /** `map(String::trim)`. */
  function TrimAll(ts: seq<string>): (r: seq<string>)
    ensures |r| == |ts|
    ensures forall k :: 0 <= k < |ts| ==> r[k] == Trim(ts[k])
    decreases |ts|
  {
    if |ts| == 0 then [] else [Trim(ts[0])] + TrimAll(ts[1..])
  }

  predicate NonEmpty(s: string) {
    |s| > 0
  }

  /** The names in unquoted text: split, trim each piece, drop empty ones. */
  function SplitNames(c: string): seq<string> {
    Filter(NonEmpty, TrimAll(DropTrailingEmpty(SplitTokens(c))))
  }

  /** What a parsed producer name looks like. */
  predicate IsProducerName(n: string) {
    |n| > 0 && IsTrimmed(n) && !HasDelimiter(n)
  }

  /** `parseProducers`. */
  function ParseProducers(raw: string): (r: Result<seq<string>, ParseError>)
    ensures r.Failure? <==> Trim(raw) == "\""
    ensures r.Success? ==> forall k :: 0 <= k < |r.value| ==> IsProducerName(r.value[k])
  {
    var c :- Unquote(Trim(raw));
    if |c| == 0 then Success([])
    else
      SplitNamesAreNames(c);
      Success(SplitNames(c))
  }

  /** Every name that comes out of the split is a well-formed producer name. */
  lemma SplitNamesAreNames(c: string)
    ensures forall k :: 0 <= k < |SplitNames(c)| ==> IsProducerName(SplitNames(c)[k])
  {
    var ts := SplitTokens(c);
    TokensHaveNoDelimiter(c);
    TrimmedTokensHaveNoDelimiter(ts);
    KeptNamesAreNames(TrimAll(DropTrailingEmpty(ts)));
  }

  /** None of the texts holds a delimiter. */
  predicate NoneDelimited(ts: seq<string>) {
    forall k :: 0 <= k < |ts| ==> !HasDelimiter(ts[k])
  }

  /** No piece of the split holds a delimiter. */
  lemma TokensHaveNoDelimiter(c: string)
    ensures NoneDelimited(SplitTokens(c))
  {
    var sp := SplitSpans(c, 0, 0);
    var ts := SplitTokens(c);
    SplitSpansScan(c, 0, 0);
    forall k | 0 <= k < |ts|
      ensures !HasDelimiter(ts[k])
    {
      assert forall p :: sp[k].lo <= p < sp[k].hi ==> MatchAt(c, p).None?;
      SegmentFree(c, sp[k].lo, sp[k].hi);
    }
  }

  /** Dropping pieces and trimming the rest keeps them free of delimiters. */
  lemma TrimmedTokensHaveNoDelimiter(ts: seq<string>)
    requires NoneDelimited(ts)
    ensures NoneDelimited(TrimAll(DropTrailingEmpty(ts)))
  {
    var kept := DropTrailingEmpty(ts);
    var trimmed := TrimAll(kept);
    forall k | 0 <= k < |trimmed|
      ensures !HasDelimiter(trimmed[k])
    {
      assert kept[k] == ts[k];
      TrimKeepsNoDelimiter(kept[k]);
    }
  }

  /** Trimmed pieces free of delimiters that are not empty are names. */
  lemma KeptNamesAreNames(trimmed: seq<string>)
    requires NoneDelimited(trimmed)
    requires forall k :: 0 <= k < |trimmed| ==> IsTrimmed(trimmed[k])
    ensures forall k :: 0 <= k < |Filter(NonEmpty, trimmed)| ==> IsProducerName(Filter(NonEmpty, trimmed)[k])
  {
    var names := Filter(NonEmpty, trimmed);
    forall k | 0 <= k < |names|
      ensures IsProducerName(names[k])
    {
      assert names[k] in names;
      FilterMembership(NonEmpty, trimmed, names[k]);
      var j :| 0 <= j < |trimmed| && trimmed[j] == names[k];
    }
  }

  /** Trimming cannot create a delimiter. */
  lemma TrimKeepsNoDelimiter(t: string)
    requires !HasDelimiter(t)
    ensures !HasDelimiter(Trim(t))
  {
    var lo := SkipBlanksForward(t, 0, |t|);
    var hi := SkipBlanksBackward(t, lo, |t|);
    var r := Trim(t);
    assert r == t[lo..hi];
    forall q | 0 <= q < |r|
      ensures r[q] != ','
    {
      assert r[q] == t[lo + q];
    }
    AndAtInSlice(t, lo, hi);
  }

  /** A delimiter occurrence in a slice is one in the whole text. */
  lemma AndAtInSlice(t: string, lo: nat, hi: nat)
    requires lo <= hi <= |t|
    ensures forall i :: 0 < i < hi - lo && AndAt(t[lo..hi], i) ==> AndAt(t, lo + i)
  {
    forall i | 0 < i < hi - lo && AndAt(t[lo..hi], i)
      ensures AndAt(t, lo + i)
    {
      SliceOfSlice(t, lo, hi, i, i + 3);
    }
  }

  /* ---------------------------------------------------------------------
     Properties of the whole parse. */

  lemma {:induction false} TrimAllAppend(a: seq<string>, b: seq<string>)
    ensures TrimAll(a + b) == TrimAll(a) + TrimAll(b)
    decreases |a|
  {
    if |a| == 0 {
      assert a + b == b;
    } else {
      assert (a + b)[1..] == a[1..] + b;
      TrimAllAppend(a[1..], b);
    }
  }

  /** Dropping the trailing empty tokens, as `split` does, changes no name:
      an empty token trims to an empty name and is filtered out anyway. */
  lemma {:induction false} DropTrailingEmptyIrrelevant(ts: seq<string>)
    ensures Filter(NonEmpty, TrimAll(DropTrailingEmpty(ts))) == Filter(NonEmpty, TrimAll(ts))
    decreases |ts|
  {
    if |ts| > 0 && ts[|ts| - 1] == [] {
      var init := ts[..|ts| - 1];
      assert DropTrailingEmpty(ts) == DropTrailingEmpty(init);
      DropTrailingEmptyIrrelevant(init);
      SnocSplit(ts);
      EmptyTokenDropsOut(init, ts[|ts| - 1]);
    }
  }

  /** An empty last piece gives no name. */
  lemma EmptyTokenDropsOut(init: seq<string>, last: string)
    requires last == []
    ensures Filter(NonEmpty, TrimAll(init + [last])) == Filter(NonEmpty, TrimAll(init))
  {
    TrimAllAppend(init, [last]);
    FilterAppend(NonEmpty, TrimAll(init), TrimAll([last]));
    assert TrimAll([last]) == [Trim(last)];
    assert Filter(NonEmpty, [Trim(last)]) == [] + Filter(NonEmpty, []);
    AppendEmpty(Filter(NonEmpty, TrimAll(init)));
  }

  /** Blank text, and a pair of quotes around nothing, give no names. */
  lemma ParseProducersBlank(raw: string)
    requires Trim(raw) == "" || Trim(raw) == "\"\""
    ensures ParseProducers(raw) == Success([])
  {
    if Trim(raw) == "\"\"" {
      assert Unquote(Trim(raw)) == Success("");
    }
  }

  /** With no match anywhere, the scan yields one span: the whole text. */
  lemma {:induction false} NoMatchOneSpan(c: string, i: nat)
    requires i <= |c|
    requires forall p :: 0 <= p < |c| ==> MatchAt(c, p).None?
    ensures SplitSpans(c, 0, i) == [Span(0, |c|)]
    decreases |c| - i
  {
    if i < |c| {
      NoMatchOneSpan(c, i + 1);
    }
  }

  /** Text without a comma or a whitespace-`and`-whitespace is one name, or
      none when it is blank. */
  lemma SplitNamesUndelimited(c: string)
    requires |c| > 0 && !HasDelimiter(c)
    ensures SplitNames(c) == if AllBlank(c) then [] else [Trim(c)]
  {
    forall p | 0 <= p < |c|
      ensures MatchAt(c, p).None?
    {
      if MatchAt(c, p).Some? {
        MatchHasDelimiter(c, p);
      }
    }
    NoMatchOneSpan(c, 0);
    assert c[0..|c|] == c;
    assert SplitTokens(c) == [c];
    assert TrimAll([c]) == [Trim(c)];
    assert Filter(NonEmpty, [Trim(c)]) == (if NonEmpty(Trim(c)) then [Trim(c)] else []) + Filter(NonEmpty, []);
  }

  /** The same, stated on the raw column. */
  lemma ParseProducersUndelimited(raw: string)
    requires Unquote(Trim(raw)).Success?
    requires !HasDelimiter(Unquote(Trim(raw)).value)
    ensures var c := Unquote(Trim(raw)).value;
            ParseProducers(raw) == Success(if AllBlank(c) then [] else [Trim(c)])
  {
    var c := Unquote(Trim(raw)).value;
    if |c| > 0 {
      SplitNamesUndelimited(c);
    }
  }

  /** `names[k]` occurs in `c` at offset `pos[k]`, and each occurrence ends
      before the next one begins. */
  predicate OccursInOrder(names: seq<string>, c: string, pos: seq<nat>) {
    && |pos| == |names|
    && (forall k :: 0 <= k < |names| ==>
          pos[k] + |names[k]| <= |c| && c[pos[k]..pos[k] + |names[k]|] == names[k])
    && (forall k :: 0 <= k < |names| - 1 ==> pos[k] + |names[k]| < pos[k + 1])
  }

  /** Where each non-empty trimmed span starts in `c`. */
  function NamePositions(c: string, sp: seq<Span>): seq<nat>
    requires SpansInside(c, sp)
    decreases |sp|
  {
    if |sp| == 0 then [] else SpanPosition(c[sp[0].lo..sp[0].hi], sp[0].lo) + NamePositions(c, sp[1..])
  }

  /** Where the trimmed text `t`, found at `lo`, starts; nothing when it is
      blank. */
  function SpanPosition(t: string, lo: nat): seq<nat> {
    if |Trim(t)| > 0 then [lo + TrimStart(t)] else []
  }

  /** `OccursInOrder` one name at a time, every offset at or after `lo`. */
  predicate InOrderFrom(names: seq<string>, c: string, pos: seq<nat>, lo: nat)
    decreases |names|
  {
    && |pos| == |names|
    && (|names| > 0 ==>
          && lo <= pos[0] && pos[0] + |names[0]| <= |c|
          && c[pos[0]..pos[0] + |names[0]|] == names[0]
          && InOrderFrom(names[1..], c, pos[1..], pos[0] + |names[0]| + 1))
  }

  /** A lower bound can always be lowered. */
  lemma InOrderFromLower(names: seq<string>, c: string, pos: seq<nat>, lo: nat, lo': nat)
    requires InOrderFrom(names, c, pos, lo) && lo' <= lo
    ensures InOrderFrom(names, c, pos, lo')
  {
  }

  /** The one-name-at-a-time form means the occurrences are in order. */
  lemma {:induction false} InOrderFromMeans(names: seq<string>, c: string, pos: seq<nat>, lo: nat)
    requires InOrderFrom(names, c, pos, lo)
    ensures OccursInOrder(names, c, pos)
    ensures forall k :: 0 <= k < |pos| ==> lo <= pos[k]
    decreases |names|
  {
    if |names| > 0 {
      var next := pos[0] + |names[0]| + 1;
      InOrderFromMeans(names[1..], c, pos[1..], next);
      forall k | 0 <= k < |names|
        ensures pos[k] + |names[k]| <= |c| && c[pos[k]..pos[k] + |names[k]|] == names[k]
        ensures lo <= pos[k]
      {
        if k > 0 {
          assert names[k] == names[1..][k - 1] && pos[k] == pos[1..][k - 1];
        }
      }
      forall k | 0 <= k < |names| - 1
        ensures pos[k] + |names[k]| < pos[k + 1]
      {
        assert pos[k + 1] == pos[1..][k];
        if k > 0 {
          assert names[k] == names[1..][k - 1] && pos[k] == pos[1..][k - 1];
        }
      }
    }
  }

  /** A trimmed token lies inside its span, at its trimmed offset. */
  lemma TrimmedTokenInside(c: string, lo: nat, hi: nat, t: string, p: nat)
    requires lo <= hi <= |c| && t == c[lo..hi] && p == lo + TrimStart(t)
    ensures lo <= p && p + |Trim(t)| <= hi && c[p..p + |Trim(t)|] == Trim(t)
  {
    TrimInfix(t);
    SliceOfSlice(c, lo, hi, TrimStart(t), TrimStart(t) + |Trim(t)|);
  }

  /** The names of some spans. */
  function SpanNames(c: string, sp: seq<Span>): seq<string>
    requires SpansInside(c, sp)
  {
    Filter(NonEmpty, TrimAll(TokensOf(c, sp)))
  }

  /** Where the first span starts. */
  function FirstStart(sp: seq<Span>): nat {
    if |sp| == 0 then 0 else sp[0].lo
  }

  /** The spans after the first are ordered too, and start after it. */
  lemma SpansTail(c: string, sp: seq<Span>)
    requires SpansOrdered(c, sp) && |sp| > 0
    ensures SpansOrdered(c, sp[1..])
    ensures |sp| > 1 ==> sp[0].hi < FirstStart(sp[1..])
  {
    forall k | 0 <= k < |sp[1..]| - 1
      ensures sp[1..][k].hi < sp[1..][k + 1].lo
    {
      assert sp[1..][k] == sp[k + 1] && sp[1..][k + 1] == sp[k + 2];
    }
    if |sp| > 1 {
      assert sp[1..][0] == sp[1];
    }
  }

  /** The tokens of spans, one span at a time. */
  lemma TokensOfCons(c: string, sp: seq<Span>, t: string)
    requires SpansInside(c, sp) && |sp| > 0 && t == c[sp[0].lo..sp[0].hi]
    ensures SpansInside(c, sp[1..])
    ensures TokensOf(c, sp) == [t] + TokensOf(c, sp[1..])
  {
  }

  lemma TrimAllCons(t: string, ts: seq<string>)
    ensures TrimAll([t] + ts) == [Trim(t)] + TrimAll(ts)
  {
    assert ([t] + ts)[0] == t && ([t] + ts)[1..] == ts;
  }

  /** The names of spans, one span at a time. */
  lemma SpanNamesFirst(c: string, sp: seq<Span>, t: string)
    requires SpansInside(c, sp) && |sp| > 0 && t == c[sp[0].lo..sp[0].hi]
    ensures SpanNames(c, sp) == (if NonEmpty(Trim(t)) then [Trim(t)] else []) + SpanNames(c, sp[1..])
  {
    var rest := TokensOf(c, sp[1..]);
    TokensOfCons(c, sp, t);
    TrimAllCons(t, rest);
    FilterCons(NonEmpty, Trim(t), TrimAll(rest));
  }

  /** A first span with text adds that text in front ... */
  lemma SpanNamesFirstName(c: string, sp: seq<Span>, t: string)
    requires SpansInside(c, sp) && |sp| > 0 && t == c[sp[0].lo..sp[0].hi]
    requires |Trim(t)| > 0
    ensures SpanNames(c, sp) == [Trim(t)] + SpanNames(c, sp[1..])
  {
    SpanNamesFirst(c, sp, t);
  }

  /** ... at the offset where the trimmed text starts ... */
  lemma NamePositionsFirstName(c: string, sp: seq<Span>, t: string, p: nat)
    requires SpansInside(c, sp) && |sp| > 0 && t == c[sp[0].lo..sp[0].hi]
    requires |Trim(t)| > 0 && p == sp[0].lo + TrimStart(t)
    ensures NamePositions(c, sp) == [p] + NamePositions(c, sp[1..])
  {
    NamePositionsFirst(c, sp, t);
  }

  lemma NamePositionsFirst(c: string, sp: seq<Span>, t: string)
    requires SpansInside(c, sp) && |sp| > 0 && t == c[sp[0].lo..sp[0].hi]
    ensures NamePositions(c, sp) == SpanPosition(t, sp[0].lo) + NamePositions(c, sp[1..])
  {
  }

  /** ... and a blank first span adds nothing. */
  lemma SpanNamesFirstBlank(c: string, sp: seq<Span>, t: string)
    requires SpansInside(c, sp) && |sp| > 0 && t == c[sp[0].lo..sp[0].hi]
    requires |Trim(t)| == 0
    ensures SpanNames(c, sp) == SpanNames(c, sp[1..])
    ensures NamePositions(c, sp) == NamePositions(c, sp[1..])
  {
    SpanNamesFirst(c, sp, t);
    NamePositionsFirst(c, sp, t);
    AppendEmpty(SpanNames(c, sp[1..]));
    AppendEmpty(NamePositions(c, sp[1..]));
  }

  /** A first span that trims to nothing adds no name. */
  lemma SpanNamesStepBlank(c: string, sp: seq<Span>)
    requires SpansOrdered(c, sp) && |sp| > 0
    requires SpansOrdered(c, sp[1..])
    requires InOrderFrom(SpanNames(c, sp[1..]), c, NamePositions(c, sp[1..]), FirstStart(sp[1..]))
    requires |Trim(c[sp[0].lo..sp[0].hi])| == 0
    ensures InOrderFrom(SpanNames(c, sp), c, NamePositions(c, sp), FirstStart(sp))
  {
    var t := c[sp[0].lo..sp[0].hi];
    SpansTail(c, sp);
    SpanNamesFirstBlank(c, sp, t);
    var names := SpanNames(c, sp[1..]);
    var pos := NamePositions(c, sp[1..]);
    if |sp| > 1 {
      InOrderFromLower(names, c, pos, FirstStart(sp[1..]), FirstStart(sp));
    } else {
      assert |names| == 0;
    }
  }

  /** No spans, no names. */
  lemma SpanNamesNone(c: string, sp: seq<Span>)
    requires |sp| == 0
    ensures SpanNames(c, sp) == [] && NamePositions(c, sp) == []
  {
    assert TokensOf(c, sp) == [];
    assert TrimAll([]) == [];
  }

  /** The names of the later spans all start after the first span. */
  lemma RestAfterFirst(c: string, sp: seq<Span>, bound: nat)
    requires SpansOrdered(c, sp) && |sp| > 0 && SpansOrdered(c, sp[1..])
    requires InOrderFrom(SpanNames(c, sp[1..]), c, NamePositions(c, sp[1..]), FirstStart(sp[1..]))
    requires bound <= sp[0].hi + 1
    ensures InOrderFrom(SpanNames(c, sp[1..]), c, NamePositions(c, sp[1..]), bound)
  {
    var names := SpanNames(c, sp[1..]);
    var pos := NamePositions(c, sp[1..]);
    if |sp| > 1 {
      SpansTail(c, sp);
      InOrderFromLower(names, c, pos, FirstStart(sp[1..]), bound);
    } else {
      SpanNamesNone(c, sp[1..]);
      InOrderFromEmpty(c, bound);
    }
  }

  lemma InOrderFromEmpty(c: string, lo: nat)
    ensures InOrderFrom([], c, [], lo)
  {
  }

  /** A first span with text puts its name in front. */
  lemma SpanNamesStepName(c: string, sp: seq<Span>)
    requires SpansOrdered(c, sp) && |sp| > 0
    requires SpansOrdered(c, sp[1..])
    requires InOrderFrom(SpanNames(c, sp[1..]), c, NamePositions(c, sp[1..]), FirstStart(sp[1..]))
    requires |Trim(c[sp[0].lo..sp[0].hi])| > 0
    ensures InOrderFrom(SpanNames(c, sp), c, NamePositions(c, sp), FirstStart(sp))
  {
    var t := c[sp[0].lo..sp[0].hi];
    var p := sp[0].lo + TrimStart(t);
    assert SpanNames(c, sp) == [Trim(t)] + SpanNames(c, sp[1..]) by {
      SpanNamesFirstName(c, sp, t);
    }
    assert NamePositions(c, sp) == [p] + NamePositions(c, sp[1..]) by {
      NamePositionsFirstName(c, sp, t, p);
    }
    PlaceFirstName(c, sp, t, p);
    assert FirstStart(sp) == sp[0].lo;
  }

  /** The first span's name, at its offset, goes in front of the names of
      the later spans. */
  lemma PlaceFirstName(c: string, sp: seq<Span>, t: string, p: nat)
    requires SpansOrdered(c, sp) && |sp| > 0 && SpansOrdered(c, sp[1..])
    requires InOrderFrom(SpanNames(c, sp[1..]), c, NamePositions(c, sp[1..]), FirstStart(sp[1..]))
    requires t == c[sp[0].lo..sp[0].hi] && p == sp[0].lo + TrimStart(t)
    ensures InOrderFrom([Trim(t)] + SpanNames(c, sp[1..]), c, [p] + NamePositions(c, sp[1..]), sp[0].lo)
  {
    var n := Trim(t);
    var names := SpanNames(c, sp[1..]);
    var pos := NamePositions(c, sp[1..]);
    assert sp[0].lo <= p && p + |n| <= sp[0].hi && c[p..p + |n|] == n by {
      TrimmedTokenInside(c, sp[0].lo, sp[0].hi, t, p);
    }
    assert InOrderFrom(names, c, pos, p + |n| + 1) by {
      RestAfterFirst(c, sp, p + |n| + 1);
    }
    InOrderFromCons(n, names, c, p, pos, sp[0].lo);
  }

  /** One more name in front of names that all come later. */
  lemma InOrderFromCons(n: string, names: seq<string>, c: string, p: nat, pos: seq<nat>, lo: nat)
    requires lo <= p && p + |n| <= |c| && c[p..p + |n|] == n
    requires InOrderFrom(names, c, pos, p + |n| + 1)
    ensures InOrderFrom([n] + names, c, [p] + pos, lo)
  {
    assert ([n] + names)[1..] == names && ([p] + pos)[1..] == pos;
  }

  lemma {:induction false} SpanNamesInOrder(c: string, sp: seq<Span>)
    requires SpansOrdered(c, sp)
    ensures InOrderFrom(SpanNames(c, sp), c, NamePositions(c, sp), FirstStart(sp))
    decreases |sp|
  {
    if |sp| == 0 {
      assert TrimAll(TokensOf(c, sp)) == [];
    } else {
      SpansTail(c, sp);
      SpanNamesInOrder(c, sp[1..]);
      if |Trim(c[sp[0].lo..sp[0].hi])| > 0 {
        SpanNamesStepName(c, sp);
      } else {
        SpanNamesStepBlank(c, sp);
      }
    }
  }

  /** The names of unquoted text in the order they appear in it. */
  lemma SplitNamesInOrder(c: string)
    ensures OccursInOrder(SplitNames(c), c, NamePositions(c, SplitSpans(c, 0, 0)))
  {
    var sp := SplitSpans(c, 0, 0);
    SplitSpansOrdered(c);
    DropTrailingEmptyIrrelevant(SplitTokens(c));
    SpanNamesInOrder(c, sp);
    InOrderFromMeans(SpanNames(c, sp), c, NamePositions(c, sp), FirstStart(sp));
  }

  /** The names come out in the order they appear in the unquoted text, each
      one a piece of it. */
  lemma ParseProducersInOrder(raw: string)
    requires ParseProducers(raw).Success?
    ensures exists pos :: OccursInOrder(ParseProducers(raw).value, Unquote(Trim(raw)).value, pos)
  {
    var c := Unquote(Trim(raw)).value;
    if |c| == 0 {
      assert ParseProducers(raw).value == [];
      assert OccursInOrder([], c, []);
    } else {
      assert ParseProducers(raw).value == SplitNames(c);
      SplitNamesInOrder(c);
    }
  }

  /* ---------------------------------------------------------------------
     Completeness: names written with commas or `and` between them split
     back into those names. */

  /** Inside a well-formed name that ends the text or is followed by a comma,
      no position starts a delimiter match. */
  lemma NoMatchInside(c: string, lo: nat, hi: nat)
    requires lo <= hi <= |c|
    requires IsProducerName(c[lo..hi])
    requires hi == |c| || c[hi] == ','
    ensures forall p :: lo <= p < hi ==> MatchAt(c, p).None?
  {
    var n := c[lo..hi];
    forall p | lo <= p < hi
      ensures MatchAt(c, p).None?
    {
      assert c[p] == n[p - lo];
      if MatchAt(c, p).Some? {
        assert c[p] != ',' by { assert n[p - lo] in n; }
        var j := SpaceRunEnd(c, p);
        assert j > p;
        assert p > lo by { assert !IsBlank(n[0]); }
        assert j + 3 < hi;
        assert IsSpace(c[j - 1]) by { assert c[p..j][j - 1 - p] == c[j - 1]; }
        SliceOfSlice(c, lo, hi, j - lo, j - lo + 3);
        assert AndAt(n, j - lo);
        assert false;
      }
    }
  }

  /** Positions that start no match leave the span being collected open. */
  lemma {:induction false} ScanFree(c: string, start: nat, i: nat, e: nat)
    requires start <= i <= e <= |c|
    requires forall p :: i <= p < e ==> MatchAt(c, p).None?
    ensures SplitSpans(c, start, i) == SplitSpans(c, start, e)
    decreases e - i
  {
    if i < e {
      ScanFree(c, start, i + 1, e);
    }
  }

  /** The text from `lo` on is `first` followed by `tail`. */
  lemma SuffixParts(c: string, lo: nat, first: string, tail: string)
    requires lo <= |c| && c[lo..] == first + tail
    ensures lo + |first| <= |c|
    ensures c[lo..lo + |first|] == first
    ensures c[lo + |first|..] == tail
  {
    assert c[lo..][..|first|] == first;
    assert c[lo..][|first|..] == tail;
  }

  /** Text free of matches up to a match is one token, and the scan resumes
      where the match ends. */
  lemma ScanNameThenMatch(c: string, lo: nat, hi: nat, next: nat)
    requires lo <= hi < |c| && MatchAt(c, hi) == Some(next)
    requires forall p :: lo <= p < hi ==> MatchAt(c, p).None?
    ensures TokensOf(c, SplitSpans(c, lo, lo)) == [c[lo..hi]] + TokensOf(c, SplitSpans(c, next, next))
  {
    ScanFree(c, lo, lo, hi);
    var sp := SplitSpans(c, lo, lo);
    assert sp == [Span(lo, hi)] + SplitSpans(c, next, next);
    TokensOfCons(c, sp, c[lo..hi]);
    assert sp[1..] == SplitSpans(c, next, next);
  }

  /** Every entry is a well-formed name. */
  predicate AllNames(ns: seq<string>) {
    forall k :: 0 <= k < |ns| ==> IsProducerName(ns[k])
  }

  /** A name whose last word is `and`: written before ` and `, the regex
      would take its own `and` as the separator. */
  predicate EndsWithAndWord(n: string) {
    |n| >= 4 && IsSpace(n[|n| - 4]) && n[|n| - 3..] == "and"
  }

  /** Inside a well-formed name followed by ` and `, no position starts a
      delimiter match, provided the name's last word is not `and`. */
  lemma NoMatchBeforeAnd(c: string, lo: nat, hi: nat)
    requires lo <= hi && hi + 5 <= |c| && c[hi..hi + 5] == " and "
    requires IsProducerName(c[lo..hi]) && !EndsWithAndWord(c[lo..hi])
    ensures forall p :: lo <= p < hi ==> MatchAt(c, p).None?
  {
    var n := c[lo..hi];
    forall p | lo <= p < hi
      ensures MatchAt(c, p).None?
    {
      assert c[p] == n[p - lo];
      if MatchAt(c, p).Some? {
        assert c[p] != ',' by { assert n[p - lo] in n; }
        var j := SpaceRunEnd(c, p);
        assert p > lo by { assert !IsBlank(n[0]); }
        assert j < hi by {
          assert c[hi - 1] == n[|n| - 1];
          SpaceRunStops(c, p, hi - 1);
        }
        assert IsSpace(c[j - 1]) by { assert c[p..j][j - 1 - p] == c[j - 1]; }
        assert c[j..j + 3] == "and" && IsSpace(c[j + 3]);
        assert j + 3 <= hi;
        AndWordInside(c, lo, hi, j);
        assert false;
      }
    }
  }

  /** A run of whitespace stops at the first non-space. */
  lemma SpaceRunStops(c: string, p: nat, q: nat)
    requires p <= q < |c| && !IsSpace(c[q])
    ensures SpaceRunEnd(c, p) <= q
    decreases q - p
  {
    if p < q && IsSpace(c[p]) {
      SpaceRunStops(c, p + 1, q);
    }
  }

  /** An `and` with whitespace before it that ends inside or at the end of
      a name is either an occurrence of the delimiter in the name or the
      name's last word. */
  lemma AndWordInside(c: string, lo: nat, hi: nat, j: nat)
    requires lo < j && j + 3 <= hi <= |c|
    requires IsSpace(c[j - 1]) && c[j..j + 3] == "and" && j + 3 < |c| && IsSpace(c[j + 3])
    ensures AndAt(c[lo..hi], j - lo) || EndsWithAndWord(c[lo..hi])
  {
    var n := c[lo..hi];
    if j + 3 < hi {
      SliceOfSlice(c, lo, hi, j - lo, j - lo + 3);
      assert AndAt(n, j - lo);
    } else {
      SliceOfSlice(c, lo, hi, j - lo, hi - lo);
      assert n[|n| - 4] == c[j - 1];
      assert EndsWithAndWord(n);
    }
  }

  /** ` and ` before a non-space is one whole match. */
  lemma AndSeparatorMatch(c: string, hi: nat)
    requires hi + 5 < |c| && c[hi..hi + 5] == " and " && !IsSpace(c[hi + 5])
    ensures MatchAt(c, hi) == Some(hi + 5)
  {
    assert c[hi] == ' ' && c[hi + 1] == 'a' && c[hi + 4] == ' ';
    assert SpaceRunEnd(c, hi + 1) == hi + 1;
    assert SpaceRunEnd(c, hi) == hi + 1;
    assert c[hi + 1..hi + 4] == "and" by {
      SliceOfSlice(c, hi, hi + 5, 1, 4);
      assert " and "[1..4] == "and";
    }
    assert SpaceRunEnd(c, hi + 5) == hi + 5;
    assert SpaceRunEnd(c, hi + 4) == hi + 5;
  }

  lemma AllNamesTail(ns: seq<string>)
    requires |ns| > 0 && AllNames(ns)
    ensures IsProducerName(ns[0]) && AllNames(ns[1..])
  {
    forall k | 0 <= k < |ns[1..]|
      ensures IsProducerName(ns[1..][k])
    {
      assert ns[1..][k] == ns[k + 1];
    }
  }

  /** The ways the column separates names: a comma, a comma and one space,
      or `and` between single spaces. */
  predicate IsSeparator(s: string) {
    s == "," || s == ", " || s == " and "
  }

  /** A name whose first word is `and`: written after `, `, the space and
      that word would be read as a separator. */
  predicate StartsWithAndWord(n: string) {
    |n| >= 3 && n[..3] == "and" && (|n| == 3 || IsSpace(n[3]))
  }

  /** Names written out with `seps[k]` between `names[k]` and `names[k + 1]`. */
  function Interleave(names: seq<string>, seps: seq<string>): string
    requires |names| > 0 && |seps| == |names| - 1
    decreases |names|
  {
    if |names| == 1 then names[0]
    else names[0] + seps[0] + Interleave(names[1..], seps[1..])
  }

  /** Names and separators that read back unambiguously: well-formed names,
      each gap a separator, no name whose last word is `and` placed before
      ` and `, and no name whose first word is `and` placed after `, `. */
  predicate Separable(names: seq<string>, seps: seq<string>) {
    && |names| > 0 && |seps| == |names| - 1 && AllNames(names)
    && (forall k :: 0 <= k < |seps| ==> IsSeparator(seps[k]))
    && (forall k :: 0 <= k < |seps| && seps[k] == " and " ==> !EndsWithAndWord(names[k]))
    && (forall k :: 0 <= k < |seps| && seps[k] == ", " ==> !StartsWithAndWord(names[k + 1]))
  }

  /** What a token holds before its name: nothing, or the one space that
      `, ` leaves behind. */
  predicate IsPad(pad: string, name: string) {
    pad == "" || (pad == " " && !StartsWithAndWord(name))
  }

  lemma SeparableTail(names: seq<string>, seps: seq<string>)
    requires |names| > 1 && Separable(names, seps)
    ensures IsProducerName(names[0]) && IsSeparator(seps[0])
    ensures seps[0] == " and " ==> !EndsWithAndWord(names[0])
    ensures seps[0] == ", " ==> !StartsWithAndWord(names[1])
    ensures Separable(names[1..], seps[1..])
  {
    AllNamesTail(names);
    assert forall k :: 0 <= k < |seps[1..]| ==> seps[1..][k] == seps[k + 1] && names[1..][k] == names[k + 1];
    assert forall k :: 1 <= k < |names[1..]| ==> names[1..][k] == names[k + 1];
  }

  /** An interleaving starts with its first name, whose first character is
      not a space when the name is well formed. */
  lemma InterleaveStart(names: seq<string>, seps: seq<string>)
    requires |names| > 0 && |seps| == |names| - 1 && IsProducerName(names[0])
    ensures |Interleave(names, seps)| > 0 && !IsSpace(Interleave(names, seps)[0])
  {
    assert !IsBlank(names[0][0]);
    if |names| > 1 {
      assert Interleave(names, seps)[0] == names[0][0];
    }
  }

  /** Where the first token and the separator after it lie. */
  lemma InterleavedParts(c: string, start: nat, pad: string, names: seq<string>, seps: seq<string>) returns (hi: nat)
    requires |names| > 1 && |seps| == |names| - 1 && start <= |c| && c[start..] == pad + Interleave(names, seps)
    ensures hi == start + |pad| + |names[0]| && hi + |seps[0]| <= |c|
    ensures c[start..hi] == pad + names[0]
    ensures c[hi..] == seps[0] + Interleave(names[1..], seps[1..])
  {
    var tail := Interleave(names[1..], seps[1..]);
    hi := start + |pad| + |names[0]|;
    assert c[start..] == (pad + names[0]) + (seps[0] + tail);
    SuffixParts(c, start, pad + names[0], seps[0] + tail);
  }

  /** A space followed by a name whose first word is not `and` starts no
      match. */
  lemma PadNoMatch(c: string, start: nat, hi: nat)
    requires start + 1 < hi <= |c| && c[start] == ' '
    requires IsProducerName(c[start + 1..hi]) && !StartsWithAndWord(c[start + 1..hi])
    requires hi == |c| || c[hi] == ',' || c[hi] == ' '
    ensures MatchAt(c, start).None?
  {
    var n := c[start + 1..hi];
    assert c[start + 1] == n[0] && !IsBlank(n[0]);
    assert SpaceRunEnd(c, start + 1) == start + 1;
    assert SpaceRunEnd(c, start) == start + 1;
    if start + 4 < |c| && c[start + 1..start + 4] == "and" && IsSpace(c[start + 4]) {
      AndFront(c, start, hi);
      assert false;
    }
  }

  /** The word `and` right after a space, at the front of a name, is the
      name's first word. */
  lemma AndFront(c: string, start: nat, hi: nat)
    requires start + 1 < hi <= |c| && (hi == |c| || c[hi] == ',' || c[hi] == ' ')
    requires start + 4 < |c| && c[start + 1..start + 4] == "and" && IsSpace(c[start + 4])
    ensures StartsWithAndWord(c[start + 1..hi])
  {
    assert hi >= start + 4;
    var n := c[start + 1..hi];
    SliceOfSlice(c, start + 1, hi, 0, 3);
    if |n| > 3 {
      assert n[3] == c[start + 4];
    }
  }

  /** No position inside a token starts a match, when the token is a
      separable name, perhaps after a space, followed by a separator or the
      end of the text. */
  lemma NoMatchInToken(c: string, start: nat, pad: string, hi: nat, name: string)
    requires start <= hi <= |c| && c[start..hi] == pad + name && IsPad(pad, name) && IsProducerName(name)
    requires hi == |c| || c[hi] == ',' || (hi + 5 <= |c| && c[hi..hi + 5] == " and " && !EndsWithAndWord(name))
    ensures forall p :: start <= p < hi ==> MatchAt(c, p).None?
  {
    var lo := start + |pad|;
    SliceOfSlice(c, start, hi, |pad|, hi - start);
    assert c[lo..hi] == (pad + name)[|pad|..] == name;
    if hi == |c| || c[hi] == ',' {
      NoMatchInside(c, lo, hi);
    } else {
      NoMatchBeforeAnd(c, lo, hi);
    }
    if pad == " " {
      assert c[start] == (pad + name)[0];
      assert hi == |c| || c[hi] == ',' || c[hi] == ' ' by {
        if hi < |c| && c[hi] != ',' { assert c[hi] == c[hi..hi + 5][0]; }
      }
      PadNoMatch(c, start, hi);
    }
  }

  /** A separator before text that starts with a non-space is one whole
      match; after it the scan goes on at the next name, or at the space
      that `, ` leaves before it. */
  lemma SeparatorMatch(c: string, hi: nat, sep: string, rest: string) returns (next: nat, pad: string)
    requires IsSeparator(sep) && hi <= |c| && c[hi..] == sep + rest && |rest| > 0 && !IsSpace(rest[0])
    ensures hi < |c| && MatchAt(c, hi) == Some(next)
    ensures next <= |c| && c[next..] == pad + rest
    ensures pad == "" || (pad == " " && sep == ", ")
    ensures c[hi] == ',' || (hi + 5 <= |c| && c[hi..hi + 5] == " and " && sep == " and ")
  {
    if sep == " and " {
      next, pad := hi + 5, "";
      SuffixParts(c, hi, " and ", rest);
      assert c[next] == rest[0];
      AndSeparatorMatch(c, hi);
    } else {
      next, pad := hi + 1, sep[1..];
      assert sep == "," + pad;
      SuffixParts(c, hi, ",", pad + rest);
      assert c[hi] == ",,"[0];
    }
  }

  /** The first token is the first name, after its pad; the scan resumes
      on the rest of the text after the separator. */
  lemma ScanInterleavedStep(c: string, start: nat, pad: string, names: seq<string>, seps: seq<string>)
    returns (next: nat, pad': string)
    requires |names| > 1 && Separable(names, seps) && IsPad(pad, names[0])
    requires start <= |c| && c[start..] == pad + Interleave(names, seps)
    ensures Separable(names[1..], seps[1..]) && IsPad(pad', names[1..][0])
    ensures next <= |c| && c[next..] == pad' + Interleave(names[1..], seps[1..])
    ensures TrimAll(TokensOf(c, SplitSpans(c, start, start))) == [names[0]] + TrimAll(TokensOf(c, SplitSpans(c, next, next)))
  {
    var hi := InterleavedParts(c, start, pad, names, seps);
    SeparableTail(names, seps);
    InterleaveStart(names[1..], seps[1..]);
    next, pad' := SeparatorMatch(c, hi, seps[0], Interleave(names[1..], seps[1..]));
    NoMatchInToken(c, start, pad, hi, names[0]);
    ScanNameThenMatch(c, start, hi, next);
    TrimFirstToken(TokensOf(c, SplitSpans(c, start, start)), pad, names[0], TokensOf(c, SplitSpans(c, next, next)));
  }

  /** Trimming the tokens trims the first one to its name. */
  lemma TrimFirstToken(ts: seq<string>, pad: string, name: string, rest: seq<string>)
    requires ts == [pad + name] + rest && (pad == "" || pad == " ") && IsTrimmed(name)
    ensures TrimAll(ts) == [name] + TrimAll(rest)
  {
    TrimPadName(pad, name);
    TrimAllCons(pad + name, rest);
  }

  /** Trimming a token gives back its name. */
  lemma TrimPadName(pad: string, name: string)
    requires (pad == "" || pad == " ") && IsTrimmed(name)
    ensures Trim(pad + name) == name
  {
    assert pad + name + [] == pad + name;
    TrimPadded(pad, name, []);
  }

  /** The scan from the start of a run of separable names yields one token
      per name, which trims to that name. */
  lemma {:induction false} ScanInterleaved(c: string, start: nat, pad: string, names: seq<string>, seps: seq<string>)
    requires Separable(names, seps) && IsPad(pad, names[0])
    requires start <= |c| && c[start..] == pad + Interleave(names, seps)
    ensures TrimAll(TokensOf(c, SplitSpans(c, start, start))) == names
    decreases |names|
  {
    if |names| == 1 {
      ScanInterleavedLast(c, start, pad, names, seps);
    } else {
      var next, pad' := ScanInterleavedStep(c, start, pad, names, seps);
      ScanInterleaved(c, next, pad', names[1..], seps[1..]);
      ConsBack(TrimAll(TokensOf(c, SplitSpans(c, start, start))), TrimAll(TokensOf(c, SplitSpans(c, next, next))), names);
    }
  }

  /** A single name, perhaps after a space, is the only token. */
  lemma ScanInterleavedLast(c: string, start: nat, pad: string, names: seq<string>, seps: seq<string>)
    requires |names| == 1 && Separable(names, seps) && IsPad(pad, names[0])
    requires start <= |c| && c[start..] == pad + Interleave(names, seps)
    ensures TrimAll(TokensOf(c, SplitSpans(c, start, start))) == names
  {
    assert Interleave(names, seps) == names[0];
    AllNamesTail(names);
    ScanLastToken(c, start, pad, names[0]);
  }

  /** A name, perhaps after a space, that runs to the end of the text is the
      last token. */
  lemma ScanLastToken(c: string, start: nat, pad: string, name: string)
    requires start <= |c| && c[start..] == pad + name && IsPad(pad, name) && IsProducerName(name)
    ensures TrimAll(TokensOf(c, SplitSpans(c, start, start))) == [name]
  {
    assert c[start..|c|] == c[start..];
    NoMatchInToken(c, start, pad, |c|, name);
    ScanToEnd(c, start);
    TrimFirstToken([c[start..]], pad, name, []);
  }

  /** Text free of matches to its end is one token. */
  lemma ScanToEnd(c: string, start: nat)
    requires start <= |c| && forall p :: start <= p < |c| ==> MatchAt(c, p).None?
    ensures TokensOf(c, SplitSpans(c, start, start)) == [c[start..]]
  {
    ScanFree(c, start, start, |c|);
    var sp := SplitSpans(c, start, start);
    assert sp == [Span(start, |c|)];
    TokensOfCons(c, sp, c[start..]);
    assert sp[1..] == [];
  }

  lemma ConsBack<T>(x: seq<T>, t: seq<T>, rest: seq<T>)
    requires |rest| > 0 && x == [rest[0]] + t && t == rest[1..]
    ensures x == rest
  {
  }

  /** Well-formed names are left alone by trimming. */
  lemma TrimAllNames(names: seq<string>)
    requires AllNames(names)
    ensures TrimAll(names) == names
  {
    forall k | 0 <= k < |names|
      ensures TrimAll(names)[k] == names[k]
    {
      TrimTrimmed(names[k]);
    }
  }

  /** Separable names split back into those names. */
  lemma SplitNamesSeparated(names: seq<string>, seps: seq<string>)
    requires Separable(names, seps)
    ensures SplitNames(Interleave(names, seps)) == names
  {
    var c := Interleave(names, seps);
    assert c[0..] == "" + c;
    ScanInterleaved(c, 0, "", names, seps);
    SplitNamesOfTokens(c, names);
  }

  /** Text whose tokens trim to well-formed names has those names. */
  lemma SplitNamesOfTokens(c: string, names: seq<string>)
    requires |names| > 0 && AllNames(names) && TrimAll(SplitTokens(c)) == names
    ensures SplitNames(c) == names
  {
    var ts := SplitTokens(c);
    assert |ts[|ts| - 1]| > 0 by {
      assert Trim(ts[|ts| - 1]) == names[|names| - 1];
    }
    assert DropTrailingEmpty(ts) == ts;
    assert forall k :: 0 <= k < |names| ==> NonEmpty(names[k]);
    FilterAll(NonEmpty, names);
  }

  /** Commas between every two names. */
  function Commas(n: nat): (r: seq<string>)
    ensures |r| == n && forall k :: 0 <= k < n ==> r[k] == ","
  {
    seq(n, _ => ",")
  }

  /** Joining on a comma is interleaving with commas. */
  lemma {:induction false} JoinIsInterleave(names: seq<string>)
    requires |names| > 0
    ensures Join(names, ',') == Interleave(names, Commas(|names| - 1))
    decreases |names|
  {
    if |names| > 1 {
      JoinIsInterleave(names[1..]);
      assert Commas(|names| - 1)[1..] == Commas(|names| - 2);
    }
  }

  /** Names joined by commas split back into those names. */
  lemma SplitNamesJoined(names: seq<string>)
    requires |names| > 0
    requires forall k :: 0 <= k < |names| ==> IsProducerName(names[k])
    ensures SplitNames(Join(names, ',')) == names
  {
    JoinIsInterleave(names);
    CommasSeparable(names);
    SplitNamesSeparated(names, Commas(|names| - 1));
  }

  /** Well-formed names with commas between them are separable. */
  lemma CommasSeparable(names: seq<string>)
    requires |names| > 0 && AllNames(names)
    ensures Separable(names, Commas(|names| - 1))
  {
  }

  /** Any list of well-formed names, written as the quoted, comma-separated
      column, parses back to exactly that list: no name is lost, split or
      reordered. */
  lemma ParseProducersRoundTrip(names: seq<string>)
    requires forall k :: 0 <= k < |names| ==> IsProducerName(names[k])
    ensures ParseProducers(Quote(if |names| == 0 then "" else Join(names, ','))) == Success(names)
  {
    if |names| == 0 {
      ParseNoNames();
    } else {
      ParseCommaJoined(names);
    }
  }

  /** The quoted empty text has no names. */
  lemma ParseNoNames()
    ensures ParseProducers(Quote("")) == Success([])
  {
    assert Trim(Quote("")) == "\"\"";
    ParseProducersBlank(Quote(""));
  }

  lemma ParseCommaJoined(names: seq<string>)
    requires |names| > 0 && AllNames(names)
    ensures ParseProducers(Quote(Join(names, ','))) == Success(names)
  {
    JoinIsInterleave(names);
    CommasSeparable(names);
    ParseSeparatedNames(names, Commas(|names| - 1));
  }

  /** Names separated by any mix of `,`, `, ` and ` and `, quoted, parse
      back to exactly those names, as long as no name before ` and ` ends in
      the word `and` and no name after `, ` starts with it. */
  lemma ParseProducersSeparated(names: seq<string>, seps: seq<string>)
    requires Separable(names, seps)
    ensures ParseProducers(Quote(Interleave(names, seps))) == Success(names)
  {
    ParseSeparatedNames(names, seps);
  }

  lemma ParseSeparatedNames(names: seq<string>, seps: seq<string>)
    requires Separable(names, seps)
    ensures ParseProducers(Quote(Interleave(names, seps))) == Success(names)
  {
    InterleaveStart(names, seps);
    ParseQuoted(Interleave(names, seps));
    SplitNamesSeparated(names, seps);
  }

  /** Quoted non-empty text is split as it stands. */
  lemma ParseQuoted(u: string)
    requires |u| > 0
    ensures ParseProducers(Quote(u)) == Success(SplitNames(u))
  {
    TrimTrimmed(Quote(u));
    UnquoteQuote(u);
  }

  /** `"A and B"`, quoted, gives the two names A and B. */
  lemma ParseProducersAnd(a: string, b: string)
    requires IsProducerName(a) && IsProducerName(b) && !EndsWithAndWord(a)
    ensures ParseProducers(Quote(a + " and " + b)) == Success([a, b])
  {
    assert Interleave([a, b], [" and "]) == a + " and " + b by {
      assert [a, b][1..] == [b];
    }
    ParseSeparatedNames([a, b], [" and "]);
  }

  /** `"A, B and C"`, quoted, gives the three names. */
  lemma ParseProducersListed(a: string, b: string, c: string)
    requires IsProducerName(a) && IsProducerName(b) && IsProducerName(c)
    requires !StartsWithAndWord(b) && !EndsWithAndWord(b)
    ensures ParseProducers(Quote(a + ", " + b + " and " + c)) == Success([a, b, c])
  {
    var names, seps := [a, b, c], [", ", " and "];
    assert Interleave(names[2..], seps[2..]) == c;
    assert Interleave(names[1..], seps[1..]) == b + " and " + c;
    assert Interleave(names, seps) == a + ", " + b + " and " + c;
    ParseSeparatedNames(names, seps);
  }

  /** The last character of an interleaving is that of its last name. */
  lemma {:induction false} InterleaveEnd(names: seq<string>, seps: seq<string>)
    requires |names| > 0 && |seps| == |names| - 1 && |names[|names| - 1]| > 0
    ensures var u := Interleave(names, seps);
            |u| > 0 && u[|u| - 1] == names[|names| - 1][|names[|names| - 1]| - 1]
    decreases |names|
  {
    if |names| > 1 {
      assert names[1..][|names[1..]| - 1] == names[|names| - 1];
      InterleaveEnd(names[1..], seps[1..]);
    }
  }

  /** Separable names written out have no blank at either end. */
  lemma InterleaveTrimmed(names: seq<string>, seps: seq<string>)
    requires Separable(names, seps)
    ensures IsTrimmed(Interleave(names, seps))
  {
    var last := names[|names| - 1];
    assert IsProducerName(names[0]) && IsProducerName(last);
    InterleaveStart(names, seps);
    InterleaveEnd(names, seps);
    if |names| > 1 {
      assert Interleave(names, seps)[0] == names[0][0];
    }
  }

  /** The column as the file holds it, without quotes: separable names
      parse back to exactly those names, unless the text both starts and
      ends with `"`, in which case that pair is stripped first. */
  lemma ParseProducersUnquoted(names: seq<string>, seps: seq<string>)
    requires Separable(names, seps)
    requires !(names[0][0] == '"' && names[|names| - 1][|names[|names| - 1]| - 1] == '"')
    ensures ParseProducers(Interleave(names, seps)) == Success(names)
  {
    var u := Interleave(names, seps);
    InterleaveTrimmed(names, seps);
    TrimTrimmed(u);
    InterleaveStart(names, seps);
    InterleaveEnd(names, seps);
    if |names| > 1 {
      assert u[0] == names[0][0];
    }
    UnquoteUnquoted(u);
    SplitNamesSeparated(names, seps);
  }

  /** The side condition is needed: the names `"X` and `Y"` joined by a
      comma are the quoted text `X,Y`, which parses to `X` and `Y`. */
  lemma QuotedEndsStripped()
    ensures Separable(["\"X", "Y\""], [","])
    ensures Interleave(["\"X", "Y\""], [","]) == Quote("X,Y")
    ensures ParseProducers(Interleave(["\"X", "Y\""], [","])) == Success(["X", "Y"])
  {
    var names, seps := ["\"X", "Y\""], [","];
    TwoShortNames("\"X", "Y\"");
    QuotedPair(names, seps);
    var plain := ["X", "Y"];
    TwoShortNames("X", "Y");
    assert Interleave(plain, seps) == "X,Y" by {
      assert plain[1..] == ["Y"];
    }
    ParseProducersSeparated(plain, seps);
  }

  /** Two names of at most three characters without a comma, joined by
      one, are separable. */
  lemma TwoShortNames(a: string, b: string)
    requires 0 < |a| <= 3 && 0 < |b| <= 3 && IsTrimmed(a) && IsTrimmed(b)
    requires ',' !in a && ',' !in b
    ensures Separable([a, b], [","])
  {
    assert IsProducerName(a) && IsProducerName(b);
  }

  lemma QuotedPair(names: seq<string>, seps: seq<string>)
    requires names == ["\"X", "Y\""] && seps == [","]
    ensures Interleave(names, seps) == Quote("X,Y")
  {
    assert names[1..] == ["Y\""];
  }

  /** `A and B`, as the file holds it, gives the two names A and B. */
  lemma ParseProducersAndUnquoted(a: string, b: string)
    requires IsProducerName(a) && IsProducerName(b) && !EndsWithAndWord(a)
    requires !(a[0] == '"' && b[|b| - 1] == '"')
    ensures ParseProducers(a + " and " + b) == Success([a, b])
  {
    assert Interleave([a, b], [" and "]) == a + " and " + b by {
      assert [a, b][1..] == [b];
    }
    ParseProducersUnquoted([a, b], [" and "]);
  }

  /** The column's usual form, `A, B and C` without quotes, gives the three
      names. */
  lemma ParseProducersListedUnquoted(a: string, b: string, c: string)
    requires IsProducerName(a) && IsProducerName(b) && IsProducerName(c)
    requires !StartsWithAndWord(b) && !EndsWithAndWord(b)
    requires !(a[0] == '"' && c[|c| - 1] == '"')
    ensures ParseProducers(a + ", " + b + " and " + c) == Success([a, b, c])
  {
    var names, seps := [a, b, c], [", ", " and "];
    assert Interleave(names[2..], seps[2..]) == c;
    assert Interleave(names[1..], seps[1..]) == b + " and " + c;
    assert Interleave(names, seps) == a + ", " + b + " and " + c;
    ParseProducersUnquoted(names, seps);
  }

  /** A name ending in the word `and` is cut there when ` and ` follows it:
      `X and` and `B` come back as `X` and `and B`. */
  lemma AndWordNameSplitsEarly()
    ensures IsProducerName("X and") && IsProducerName("B") && EndsWithAndWord("X and")
    ensures ParseProducers(Quote("X and and B")) == Success(["X", "and B"])
  {
    XAndIsName();
    SplitXAndAndB();
  }

  lemma XAndIsName()
    ensures IsProducerName("X and") && IsProducerName("B") && EndsWithAndWord("X and")
  {
    var t := "X and";
    assert ',' !in t;
    assert !AndAt(t, 1) by { assert !IsSpace(t[0]); }
    assert forall i | 0 < i < |t| :: !AndAt(t, i);
    assert t[|t| - 3..] == "and";
    var b := "B";
    assert ',' !in b;
  }

  lemma SplitXAndAndB()
    ensures ParseProducers(Quote("X and and B")) == Success(["X", "and B"])
  {
    var c := "X and and B";
    ParseQuoted(c);
    TokensOfXAndAndB();
    AndBIsName();
    TrimAllNames(["X", "and B"]);
    SplitNamesOfTokens(c, ["X", "and B"]);
  }

  lemma TokensOfXAndAndB()
    ensures SplitTokens("X and and B") == ["X", "and B"]
  {
    var c := "X and and B";
    SpansOfXAndAndB();
    var sp := SplitSpans(c, 0, 0);
    var ts := TokensOf(c, sp);
    assert |ts| == 2 && ts[0] == c[0..1] && ts[1] == c[6..11];
    SlicesOfXAndAndB();
  }

  lemma SlicesOfXAndAndB()
    ensures "X and and B"[0..1] == "X" && "X and and B"[6..11] == "and B"
  {
  }

  lemma AndBIsName()
    ensures AllNames(["X", "and B"])
  {
    var t := "and B";
    assert ',' !in t && ',' !in "X";
    assert forall i | 0 < i < |t| :: !AndAt(t, i);
  }

  lemma SpansOfXAndAndB()
    ensures SplitSpans("X and and B", 0, 0) == [Span(0, 1), Span(6, 11)]
  {
    var c := "X and and B";
    assert SpaceRunEnd(c, 2) == 2 && SpaceRunEnd(c, 1) == 2;
    assert SpaceRunEnd(c, 6) == 6 && SpaceRunEnd(c, 5) == 6;
    assert c[2..5] == "and";
    assert MatchAt(c, 0).None? && MatchAt(c, 1) == Some(6);
    assert SpaceRunEnd(c, 10) == 10 && SpaceRunEnd(c, 9) == 10;
    assert forall p | 6 <= p < 11 :: MatchAt(c, p).None?;
    ScanFree(c, 6, 6, 11);
    assert SplitSpans(c, 0, 0) == SplitSpans(c, 0, 1) == [Span(0, 1)] + SplitSpans(c, 6, 6);
  }
}
