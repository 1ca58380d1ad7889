/**
 * Hand-written matchers for the three regular expressions of the report parser.
 *
 * Each pattern is given twice: as a relation that holds of every way the pattern
 * can match the text (`DecimalSpan`, `LabelledMatch`, `WriterMatch`), and as a
 * scanner that returns one match. Python's `re.search` returns the first match in
 * backtracking order: the leftmost start, and at that start the longest choice for
 * each greedy repetition in turn. The `First...` predicates state that order, and
 * the lemmas below prove that the scanners return exactly that match, or nothing
 * when the relation is empty.
 */
module Pattern {
  import opened Wrappers
  import opened Text

  const WriterLabel: string := "Writer 0:"
  const P50Label: string := "p50: "
  const P99Label: string := "p99: "

  /** s[p..q] is a lexeme of `\d+\.\d+`: digits, one dot, digits, with a digit on each side of the dot. */
  ghost predicate DecimalSpan(s: string, p: int, q: int) {
    0 <= p < q <= |s| &&
    exists k :: p < k < q - 1 && s[k] == '.' && forall j :: p <= j < q && j != k ==> IsDigit(s[j])
  }

  /** Greedy `\d+\.\d+` at `p`: the end of the longest lexeme starting there. */
  function DecimalAt(s: string, p: nat): (r: Option<nat>)
    requires p <= |s|
    ensures r.Some? ==> DecimalSpan(s, p, r.value)
  {
    var k := DigitsEnd(s, p);
    if k == p || k == |s| || s[k] != '.' then None
    else
      var q := DigitsEnd(s, k + 1);
      if q == k + 1 then None else Some(q)
  }

  /** Every lexeme at `p` is found by `DecimalAt`, and none is longer than the one it returns. */
  lemma DecimalAtIsGreedy(s: string, p: nat)
    requires p <= |s|
    ensures forall q :: DecimalSpan(s, p, q) ==> DecimalAt(s, p).Some? && q <= DecimalAt(s, p).value
  {
    forall q | DecimalSpan(s, p, q)
      ensures DecimalAt(s, p).Some? && q <= DecimalAt(s, p).value
    {
      var k :| p < k < q - 1 && s[k] == '.' && forall j :: p <= j < q && j != k ==> IsDigit(s[j]);
      DigitsEndCovers(s, p, k);
      assert DigitsEnd(s, p) == k;
      DigitsEndCovers(s, k + 1, q);
    }
  }

  /** A lexeme holds only digits and dots, so no marker character can sit inside it. */
  lemma DecimalChars(s: string, p: int, q: int)
    requires DecimalSpan(s, p, q)
    ensures forall j :: p <= j < q ==> IsDigit(s[j]) || s[j] == '.'
  {
  }

  /** The text of a lexeme, taken out of the line, is itself a whole lexeme: `float()` accepts it. */
  lemma DecimalGroup(s: string, p: int, q: int)
    requires DecimalSpan(s, p, q)
    ensures DecimalSpan(s[p..q], 0, q - p)
  {
    var k :| p < k < q - 1 && s[k] == '.' && forall j :: p <= j < q && j != k ==> IsDigit(s[j]);
    var t := s[p..q];
    assert t[k - p] == '.';
    assert forall j :: 0 <= j < q - p && j != k - p ==> IsDigit(t[j]) by {
      forall j | 0 <= j < q - p && j != k - p
        ensures IsDigit(t[j])
      {
        assert t[j] == s[j + p];
      }
    }
  }

  /** A digit run that is not followed by a dot is never a lexeme: integers do not match. */
  lemma IntegerNeverMatches(s: string, p: nat)
    requires p <= |s|
    requires DigitsEnd(s, p) == |s| || s[DigitsEnd(s, p)] != '.'
    ensures forall q :: !DecimalSpan(s, p, q)
  {
    DecimalAtIsGreedy(s, p);
  }

  // ---------------------------------------------------------------------------
  // `marker\s+(\d+\.\d+)`

  /** A match of `marker\s+(\d+\.\d+)` starting at `i`; the whitespace ends at `w` and the group is s[w..q]. */
  ghost predicate LabelledMatch(s: string, marker: string, i: int, w: int, q: int) {
    PrefixAt(s, marker, i) && i + |marker| < w && DecimalSpan(s, w, q) &&
    forall j :: i + |marker| <= j < w ==> IsSpace(s[j])
  }

  /** The match `re.search` reports among those starting at or after `from`: the leftmost
      start, then the longest `\s+`, then the longest number. */
  ghost predicate FirstLabelled(s: string, marker: string, from: int, i: int, w: int, q: int) {
    from <= i && LabelledMatch(s, marker, i, w, q) &&
    forall i', w', q' :: from <= i' && LabelledMatch(s, marker, i', w', q') ==>
      i < i' || (i == i' && (w' < w || (w' == w && q' <= q)))
  }

  ghost predicate HasLabelled(s: string, marker: string, from: int) {
    exists i, w, q :: from <= i && LabelledMatch(s, marker, i, w, q)
  }

  /** A match: where it starts and where its (first) group lies. */
  datatype Span = Span(start: nat, groupStart: nat, groupEnd: nat)

  /** The pattern tried at one start position, greedy repetitions first. */
  function LabelledAt(s: string, marker: string, i: nat): (r: Option<Span>)
    requires i <= |s|
    ensures r.Some? ==> r.value.start == i && LabelledMatch(s, marker, i, r.value.groupStart, r.value.groupEnd)
  {
    if !PrefixAt(s, marker, i) then None
    else
      var w := SpacesEnd(s, i + |marker|);
      if w == i + |marker| then None
      else match DecimalAt(s, w)
        case None => None
        case Some(q) => Some(Span(i, w, q))
  }

  /** Every match at `i` is seen by `LabelledAt`, and it returns the preferred one. */
  lemma LabelledAtIsFirst(s: string, marker: string, i: nat)
    requires i <= |s|
    ensures forall w, q :: LabelledMatch(s, marker, i, w, q) ==>
      var r := LabelledAt(s, marker, i);
      r.Some? && w == r.value.groupStart && q <= r.value.groupEnd
  {
    forall w, q | LabelledMatch(s, marker, i, w, q)
      ensures LabelledAt(s, marker, i).Some?
      ensures w == LabelledAt(s, marker, i).value.groupStart && q <= LabelledAt(s, marker, i).value.groupEnd
    {
      assert IsDigit(s[w]);
      SpacesEndCovers(s, i + |marker|, w);
      assert SpacesEnd(s, i + |marker|) == w;
      DecimalAtIsGreedy(s, w);
    }
  }

  /** `re.search(marker\s+(\d+\.\d+), s[from:])` read on the whole text: the preferred match
      starting at `from` or later, or nothing when there is none. */
  function SearchLabelled(s: string, marker: string, from: nat): (r: Option<Span>)
    ensures r.Some? ==> FirstLabelled(s, marker, from, r.value.start, r.value.groupStart, r.value.groupEnd)
    ensures r.None? ==> !HasLabelled(s, marker, from)
    decreases |s| + 1 - from
  {
    if from > |s| then None
    else
      LabelledAtIsFirst(s, marker, from);
      match LabelledAt(s, marker, from)
      case Some(m) => Some(m)
      case None => SearchLabelled(s, marker, from + 1)
  }

  // ---------------------------------------------------------------------------
  // `Writer 0:.*p50: (\d+\.\d+).*p99: (\d+\.\d+)`

  /** `p50: ` at `a`, followed by a lexeme ending at `c`. */
  ghost predicate P50At(s: string, a: int, c: int) {
    PrefixAt(s, P50Label, a) && DecimalSpan(s, a + |P50Label|, c)
  }

  /** `p99: ` at `b`, followed by a lexeme ending at `d`. */
  ghost predicate P99At(s: string, b: int, d: int) {
    PrefixAt(s, P99Label, b) && DecimalSpan(s, b + |P99Label|, d)
  }

  /** A match of the writer pattern starting at `i`: the first `.*` covers s[i+9..a], the
      groups are s[a+5..c] and s[b+5..d], and the second `.*` covers s[c..b]. `.` never
      matches a line feed. */
  ghost predicate WriterMatch(s: string, i: int, a: int, c: int, b: int, d: int) {
    PrefixAt(s, WriterLabel, i) && i + |WriterLabel| <= a &&
    P50At(s, a, c) && NoNewline(s, i + |WriterLabel|, a) &&
    c <= b && P99At(s, b, d) && NoNewline(s, c, b)
  }

  /** Backtracking order of two writer matches: leftmost start, then the longest first
      `.*`, the longest first number, the longest second `.*`, the longest second number. */
  ghost predicate WriterBefore(i: int, a: int, c: int, b: int, d: int, i': int, a': int, c': int, b': int, d': int) {
    i < i' || (i == i' && (a > a' || (a == a' && (c > c' || (c == c' && (b > b' || (b == b' && d >= d')))))))
  }

  ghost predicate FirstWriter(s: string, from: int, i: int, a: int, c: int, b: int, d: int) {
    from <= i && WriterMatch(s, i, a, c, b, d) &&
    forall i', a', c', b', d' :: from <= i' && WriterMatch(s, i', a', c', b', d') ==>
      WriterBefore(i, a, c, b, d, i', a', c', b', d')
  }

  ghost predicate HasWriter(s: string, from: int) {
    exists i, a, c, b, d :: from <= i && WriterMatch(s, i, a, c, b, d)
  }

  /** A writer match: its start, the positions of the two labels and the ends of the two groups. */
  datatype WriterSpan = WriterSpan(start: nat, p50Label: nat, p50End: nat, p99Label: nat, p99End: nat)

  /** The positions recorded in `m` are a match of the writer pattern in `s`. */
  ghost predicate SpanMatch(s: string, m: WriterSpan) {
    match m
    case WriterSpan(i, a, c, b, d) => WriterMatch(s, i, a, c, b, d)
  }

  /** `.*p99: (\d+\.\d+)` with the `.*` starting at `from`: tries the label at hi, hi-1, ..., from. */
  function LastP99(s: string, from: nat, hi: int): (r: Option<(nat, nat)>)
    requires hi <= |s|
    ensures r.Some? ==> from <= r.value.0 <= hi && P99At(s, r.value.0, r.value.1)
    ensures forall b, d :: from <= b <= hi && P99At(s, b, d) ==>
      r.Some? && (b < r.value.0 || (b == r.value.0 && d <= r.value.1))
    decreases hi + 1 - from
  {
    if hi < from then None
    else if !PrefixAt(s, P99Label, hi) then LastP99(s, from, hi - 1)
    else
      DecimalAtIsGreedy(s, hi + |P99Label|);
      match DecimalAt(s, hi + |P99Label|)
      case Some(d) => Some((hi, d))
      case None => LastP99(s, from, hi - 1)
  }

  /** The labels and groups of the writer line that ends at `e`. */
  ghost predicate LineTail(s: string, e: int, a: int, c: int, b: int, d: int) {
    P50At(s, a, c) && c <= b <= e && P99At(s, b, d)
  }

  /** `.*p50: (\d+\.\d+).*p99: (\d+\.\d+)` on the line ending at `e`, the first `.*` trying
      the p50 label at hi, hi-1, ..., lo and, for each, the p99 label from the line's end back. */
  function LastP50(s: string, lo: nat, hi: int, e: nat): (r: Option<(nat, nat, nat, nat)>)
    requires hi <= |s| && e <= |s|
    ensures r.Some? ==> lo <= r.value.0 <= hi && LineTail(s, e, r.value.0, r.value.1, r.value.2, r.value.3)
    decreases hi + 1 - lo
  {
    if hi < lo then None
    else if !PrefixAt(s, P50Label, hi) then LastP50(s, lo, hi - 1, e)
    else
      match DecimalAt(s, hi + |P50Label|)
      case None => LastP50(s, lo, hi - 1, e)
      case Some(c) =>
        match LastP99(s, c, e)
        case Some(bd) => Some((hi, c, bd.0, bd.1))
        case None => LastP50(s, lo, hi - 1, e)
  }

  /** Any `p99: ` label after a reading of the number behind `p50: ` at `a` starts at or
      after the end `c` of the greedy reading: labels cannot start inside a number. */
  lemma P99AfterGreedyNumber(s: string, a: nat, c: nat, e: int)
    requires PrefixAt(s, P50Label, a) && DecimalSpan(s, a + |P50Label|, c)
    ensures forall c', b, d :: LineTail(s, e, a, c', b, d) ==> c <= b
  {
    DecimalChars(s, a + |P50Label|, c);
    forall c', b, d | LineTail(s, e, a, c', b, d)
      ensures c <= b
    {
      assert s[b] == P99Label[0];
    }
  }

  /** `LastP50` returns the first of the line's matches in backtracking order. */
  lemma {:induction false} LastP50IsFirst(s: string, lo: nat, hi: int, e: nat)
    requires hi <= |s| && e <= |s|
    ensures forall a, c, b, d :: lo <= a <= hi && LineTail(s, e, a, c, b, d) ==>
      var r := LastP50(s, lo, hi, e);
      r.Some? && WriterBefore(0, r.value.0, r.value.1, r.value.2, r.value.3, 0, a, c, b, d)
    decreases hi + 1 - lo
  {
    if lo <= hi {
      LastP50IsFirst(s, lo, hi - 1, e);
      var r := LastP50(s, lo, hi, e);
      var rest := LastP50(s, lo, hi - 1, e);
      forall a, c, b, d | lo <= a <= hi && LineTail(s, e, a, c, b, d)
        ensures r.Some? && WriterBefore(0, r.value.0, r.value.1, r.value.2, r.value.3, 0, a, c, b, d)
      {
        if a == hi {
          DecimalAtIsGreedy(s, hi + |P50Label|);
          var c0 := DecimalAt(s, hi + |P50Label|).value;
          P99AfterGreedyNumber(s, hi, c0, e);
          var tail := LastP99(s, c0, e);
          assert tail.Some?;
          assert r == Some((hi, c0, tail.value.0, tail.value.1));
        } else {
          assert rest.Some? && WriterBefore(0, rest.value.0, rest.value.1, rest.value.2, rest.value.3, 0, a, c, b, d);
          assert r == rest || r.value.0 == hi;
        }
      }
    }
  }

  /** The writer pattern tried at one start position. */
  function WriterAt(s: string, i: nat): (r: Option<WriterSpan>)
    requires i <= |s|
    ensures r.Some? ==> r.value.start == i
  {
    if !PrefixAt(s, WriterLabel, i) then None
    else
      var e := LineEnd(s, i + |WriterLabel|);
      match LastP50(s, i + |WriterLabel|, e, e)
      case None => None
      case Some(m) => Some(WriterSpan(i, m.0, m.1, m.2, m.3))
  }

  /** On the line after `Writer 0:`, "no line feed in between" means "before the line's end". */
  lemma WriterMatchOnLine(s: string, i: nat, a: int, c: int, b: int, d: int)
    requires PrefixAt(s, WriterLabel, i)
    ensures var e := LineEnd(s, i + |WriterLabel|);
      WriterMatch(s, i, a, c, b, d) <==> (i + |WriterLabel| <= a <= e && LineTail(s, e, a, c, b, d))
  {
    var lo := i + |WriterLabel|;
    var e := LineEnd(s, lo);
    if WriterMatch(s, i, a, c, b, d) {
      DecimalChars(s, a + |P50Label|, c);
      assert NoNewline(s, lo, b) by {
        forall j | lo <= j < b
          ensures s[j] != '\n'
        {
          if a <= j < a + |P50Label| {
            assert s[j] == P50Label[j - a];
          }
        }
      }
      LineEndCovers(s, lo, b);
    }
  }

  /** `WriterAt` returns the preferred match at `i`, and finds one whenever there is one. */
  lemma WriterAtIsFirst(s: string, i: nat)
    requires i <= |s|
    ensures WriterAt(s, i).Some? ==>
      var m := WriterAt(s, i).value;
      WriterMatch(s, i, m.p50Label, m.p50End, m.p99Label, m.p99End)
    ensures forall a, c, b, d :: WriterMatch(s, i, a, c, b, d) ==>
      WriterAt(s, i).Some? &&
      WriterBefore(i, WriterAt(s, i).value.p50Label, WriterAt(s, i).value.p50End,
                   WriterAt(s, i).value.p99Label, WriterAt(s, i).value.p99End, i, a, c, b, d)
  {
    if PrefixAt(s, WriterLabel, i) {
      var lo := i + |WriterLabel|;
      var e := LineEnd(s, lo);
      LastP50IsFirst(s, lo, e, e);
      var m := WriterAt(s, i);
      if m.Some? {
        WriterMatchOnLine(s, i, m.value.p50Label, m.value.p50End, m.value.p99Label, m.value.p99End);
      }
      forall a, c, b, d | WriterMatch(s, i, a, c, b, d)
        ensures m.Some? && WriterBefore(i, m.value.p50Label, m.value.p50End, m.value.p99Label, m.value.p99End, i, a, c, b, d)
      {
        WriterMatchOnLine(s, i, a, c, b, d);
      }
    }
  }

  /** `re.search` of the writer pattern on the text from `from` on. */
  function SearchWriter(s: string, from: nat): (r: Option<WriterSpan>)
    ensures r.Some? ==> from <= r.value.start
    decreases |s| + 1 - from
  {
    if from > |s| then None
    else
      match WriterAt(s, from)
      case Some(m) => Some(m)
      case None => SearchWriter(s, from + 1)
  }

  /** What `SearchWriter` returns is a match of the writer pattern. */
  lemma {:induction false} SearchWriterSound(s: string, from: nat, m: WriterSpan)
    requires SearchWriter(s, from) == Some(m)
    ensures SpanMatch(s, m)
    decreases |s| + 1 - from
  {
    assert from <= |s|;
    WriterAtIsFirst(s, from);
    if WriterAt(s, from).None? {
      SearchWriterSound(s, from + 1, m);
    }
  }

  /** Every match at or after `from` is found, and none comes before the one returned. */
  lemma SearchWriterComplete(s: string, from: nat)
    ensures forall i, a, c, b, d :: from <= i && WriterMatch(s, i, a, c, b, d) ==>
      var r := SearchWriter(s, from);
      r.Some? && WriterBefore(r.value.start, r.value.p50Label, r.value.p50End, r.value.p99Label, r.value.p99End, i, a, c, b, d)
  {
    forall i, a, c, b, d | from <= i && WriterMatch(s, i, a, c, b, d)
      ensures SearchWriter(s, from).Some?
      ensures var m := SearchWriter(s, from).value;
        WriterBefore(m.start, m.p50Label, m.p50End, m.p99Label, m.p99End, i, a, c, b, d)
    {
      SearchWriterFinds(s, from, WriterSpan(i, a, c, b, d));
    }
  }

  /** The search from `from` reaches the match `w`, unless it stops earlier at one that
      comes first. */
  lemma {:induction false} SearchWriterFinds(s: string, from: nat, w: WriterSpan)
    requires from <= w.start && SpanMatch(s, w)
    ensures SearchWriter(s, from).Some?
    ensures WriterBefore(SearchWriter(s, from).value.start, SearchWriter(s, from).value.p50Label,
                         SearchWriter(s, from).value.p50End, SearchWriter(s, from).value.p99Label,
                         SearchWriter(s, from).value.p99End, w.start, w.p50Label, w.p50End, w.p99Label, w.p99End)
    decreases w.start - from
  {
    assert from <= |s|;
    WriterAtIsFirst(s, from);
    if WriterAt(s, from).None? {
      SearchWriterFinds(s, from + 1, w);
    }
  }

  /** `SearchWriter` returns the preferred match at or after `from`, and finds one whenever
      there is one. */
  lemma SearchWriterIsFirst(s: string, from: nat)
    ensures var r := SearchWriter(s, from);
      r.Some? ==> FirstWriter(s, from, r.value.start, r.value.p50Label, r.value.p50End, r.value.p99Label, r.value.p99End)
    ensures SearchWriter(s, from).None? ==> !HasWriter(s, from)
  {
    if SearchWriter(s, from).Some? {
      SearchWriterSound(s, from, SearchWriter(s, from).value);
    }
    SearchWriterComplete(s, from);
  }

  // ---------------------------------------------------------------------------
  // Searching a suffix `s[off:]` is searching `s` from `off` on: none of the
  // patterns looks behind its start.

  lemma PrefixAtShift(s: string, off: nat, pat: string, i: int)
    requires off <= |s| && 0 <= i
    ensures PrefixAt(s[off..], pat, i) <==> PrefixAt(s, pat, i + off)
  {
    assert forall k :: 0 <= k < |s| - off ==> s[off..][k] == s[k + off];
  }

  lemma DecimalSpanShift(s: string, off: nat, p: int, q: int)
    requires off <= |s| && 0 <= p
    ensures DecimalSpan(s[off..], p, q) <==> DecimalSpan(s, p + off, q + off)
  {
    var t := s[off..];
    if DecimalSpan(t, p, q) {
      var k :| p < k < q - 1 && t[k] == '.' && forall j :: p <= j < q && j != k ==> IsDigit(t[j]);
      assert s[k + off] == '.';
      assert forall j :: p + off <= j < q + off && j != k + off ==> IsDigit(s[j]) by {
        forall j | p + off <= j < q + off && j != k + off
          ensures IsDigit(s[j])
        {
          assert s[j] == t[j - off];
        }
      }
    }
    if DecimalSpan(s, p + off, q + off) {
      var k :| p + off < k < q + off - 1 && s[k] == '.' && forall j :: p + off <= j < q + off && j != k ==> IsDigit(s[j]);
      assert t[k - off] == '.';
      assert forall j :: p <= j < q && j != k - off ==> IsDigit(t[j]) by {
        forall j | p <= j < q && j != k - off
          ensures IsDigit(t[j])
        {
          assert t[j] == s[j + off];
        }
      }
    }
  }

  lemma LabelledShift(s: string, off: nat, marker: string, i: int, w: int, q: int)
    requires off <= |s| && 0 <= i
    ensures LabelledMatch(s[off..], marker, i, w, q) <==> LabelledMatch(s, marker, i + off, w + off, q + off)
  {
    PrefixAtShift(s, off, marker, i);
    if 0 <= w {
      DecimalSpanShift(s, off, w, q);
    }
    if w + off <= |s| && 0 <= w {
      assert forall j :: i + |marker| <= j < w ==> s[off..][j] == s[j + off];
    }
  }

  lemma FirstLabelledFromSuffix(s: string, marker: string, off: nat, i: int, w: int, q: int)
    requires off <= |s| && FirstLabelled(s[off..], marker, 0, i, w, q)
    ensures FirstLabelled(s, marker, off, i + off, w + off, q + off)
  {
    LabelledShift(s, off, marker, i, w, q);
    forall i', w', q' | off <= i' && LabelledMatch(s, marker, i', w', q')
      ensures i + off < i' || (i + off == i' && (w' < w + off || (w' == w + off && q' <= q + off)))
    {
      LabelledShift(s, off, marker, i' - off, w' - off, q' - off);
    }
  }

  lemma NoLabelledFromSuffix(s: string, marker: string, off: nat)
    requires off <= |s| && !HasLabelled(s[off..], marker, 0)
    ensures !HasLabelled(s, marker, off)
  {
    forall i', w', q' | off <= i' && LabelledMatch(s, marker, i', w', q')
      ensures LabelledMatch(s[off..], marker, i' - off, w' - off, q' - off)
    {
      LabelledShift(s, off, marker, i' - off, w' - off, q' - off);
    }
  }

  /** `re.search(marker\s+(\d+\.\d+), s[off:])` finds, shifted by `off`, Python's first match in
      `s` among those starting at `off` or later, and fails exactly when there is none. */
  lemma SearchLabelledOnSuffix(s: string, marker: string, off: nat)
    requires off <= |s|
    ensures var r := SearchLabelled(s[off..], marker, 0);
      r.Some? ==>
        FirstLabelled(s, marker, off, r.value.start + off, r.value.groupStart + off, r.value.groupEnd + off) &&
        s[off..][r.value.groupStart..r.value.groupEnd] == s[r.value.groupStart + off..r.value.groupEnd + off]
    ensures SearchLabelled(s[off..], marker, 0).None? ==> !HasLabelled(s, marker, off)
  {
    var r := SearchLabelled(s[off..], marker, 0);
    if r.Some? {
      FirstLabelledFromSuffix(s, marker, off, r.value.start, r.value.groupStart, r.value.groupEnd);
    } else {
      NoLabelledFromSuffix(s, marker, off);
    }
  }

  lemma NoNewlineShift(s: string, off: nat, x: int, y: int)
    requires off <= |s| && 0 <= x && y + off <= |s|
    ensures NoNewline(s[off..], x, y) <==> NoNewline(s, x + off, y + off)
  {
    assert forall j :: x <= j < y ==> s[off..][j] == s[j + off];
  }

  lemma WriterShift(s: string, off: nat, i: int, a: int, c: int, b: int, d: int)
    requires off <= |s| && 0 <= i
    ensures WriterMatch(s[off..], i, a, c, b, d) <==> WriterMatch(s, i + off, a + off, c + off, b + off, d + off)
  {
    PrefixAtShift(s, off, WriterLabel, i);
    if 0 <= a {
      PrefixAtShift(s, off, P50Label, a);
      DecimalSpanShift(s, off, a + |P50Label|, c);
      if a + off <= |s| {
        NoNewlineShift(s, off, i + |WriterLabel|, a);
      }
    }
    if 0 <= b {
      PrefixAtShift(s, off, P99Label, b);
      DecimalSpanShift(s, off, b + |P99Label|, d);
      if 0 <= c && b + off <= |s| {
        NoNewlineShift(s, off, c, b);
      }
    }
  }

  /** A match at or after `off` is a match in the suffix. */
  lemma WriterIntoSuffix(s: string, off: nat, i: int, a: int, c: int, b: int, d: int)
    requires off <= |s| && off <= i && WriterMatch(s, i, a, c, b, d)
    ensures WriterMatch(s[off..], i - off, a - off, c - off, b - off, d - off)
  {
    WriterShift(s, off, i - off, a - off, c - off, b - off, d - off);
  }

  /** The match found in the suffix is, shifted by `off`, the first one in `s` from `off` on. */
  lemma FoundInSuffix(s: string, off: nat, m: WriterSpan)
    requires off <= |s| && SearchWriter(s[off..], 0) == Some(m)
    ensures FirstWriter(s, off, m.start + off, m.p50Label + off, m.p50End + off, m.p99Label + off, m.p99End + off)
  {
    SearchWriterSound(s[off..], 0, m);
    SpanOutOfSuffix(s, off, m);
    FoundBeforeAll(s, off, m);
  }

  /** A match of the suffix is a match of the whole text, shifted by `off`. */
  lemma SpanOutOfSuffix(s: string, off: nat, m: WriterSpan)
    requires off <= |s| && SpanMatch(s[off..], m)
    ensures WriterMatch(s, m.start + off, m.p50Label + off, m.p50End + off, m.p99Label + off, m.p99End + off)
  {
    WriterShift(s, off, m.start, m.p50Label, m.p50End, m.p99Label, m.p99End);
  }

  /** No match in `s` from `off` on comes before the one found in the suffix. */
  lemma FoundBeforeAll(s: string, off: nat, m: WriterSpan)
    requires off <= |s| && SearchWriter(s[off..], 0) == Some(m)
    ensures forall i', a', c', b', d' :: off <= i' && WriterMatch(s, i', a', c', b', d') ==>
      WriterBefore(m.start + off, m.p50Label + off, m.p50End + off, m.p99Label + off, m.p99End + off, i', a', c', b', d')
  {
    forall i', a', c', b', d' | off <= i' && WriterMatch(s, i', a', c', b', d')
      ensures WriterBefore(m.start + off, m.p50Label + off, m.p50End + off, m.p99Label + off, m.p99End + off, i', a', c', b', d')
    {
      WriterIntoSuffix(s, off, i', a', c', b', d');
      SearchWriterComplete(s[off..], 0);
    }
  }

  lemma NoWriterFromSuffix(s: string, off: nat)
    requires off <= |s| && !HasWriter(s[off..], 0)
    ensures !HasWriter(s, off)
  {
    forall i', a', c', b', d' | off <= i' && WriterMatch(s, i', a', c', b', d')
      ensures WriterMatch(s[off..], i' - off, a' - off, c' - off, b' - off, d' - off)
    {
      WriterIntoSuffix(s, off, i', a', c', b', d');
    }
  }

  /** The writer pattern searched in `s[off:]` fails only when `s` has no match starting
      at `off` or later. */
  lemma SearchWriterOnSuffixFails(s: string, off: nat)
    requires off <= |s|
    ensures SearchWriter(s[off..], 0).None? ==> !HasWriter(s, off)
  {
    if SearchWriter(s[off..], 0).None? {
      SearchWriterIsFirst(s[off..], 0);
      NoWriterFromSuffix(s, off);
    }
  }

  /** What backtracking order means for the writer line: the whole match lies on the
      one line that starts with `Writer 0:`, the p50 figure comes before the p99 figure,
      the p99 label is the last one on the line after the p50 figure, and the p50 label
      is the last one on the line that still has a p99 figure after it. */
  lemma FirstWriterOnLine(s: string, from: int, i: int, a: int, c: int, b: int, d: int)
    requires FirstWriter(s, from, i, a, c, b, d)
    ensures i + |WriterLabel| <= a < c <= b < d <= |s| && NoNewline(s, i, d)
    ensures forall b', d' :: c <= b' && P99At(s, b', d') && NoNewline(s, c, b') ==> b' <= b
    ensures forall a', c', b', d' :: WriterMatch(s, i, a', c', b', d') ==> a' <= a
  {
    DecimalChars(s, a + |P50Label|, c);
    DecimalChars(s, b + |P99Label|, d);
    forall j | i <= j < d
      ensures s[j] != '\n'
    {
      if j < i + |WriterLabel| {
        assert s[j] == WriterLabel[j - i];
      } else if a <= j < a + |P50Label| {
        assert s[j] == P50Label[j - a];
      } else if b <= j < b + |P99Label| {
        assert s[j] == P99Label[j - b];
      }
    }
    forall b', d' | c <= b' && P99At(s, b', d') && NoNewline(s, c, b')
      ensures b' <= b
    {
      assert WriterMatch(s, i, a, c, b', d');
    }
  }

  /** Backtracking order is total on matches, so the first match is unique. */
  lemma FirstLabelledUnique(s: string, marker: string, from: int, i: int, w: int, q: int, i': int, w': int, q': int)
    requires FirstLabelled(s, marker, from, i, w, q) && FirstLabelled(s, marker, from, i', w', q')
    ensures i == i' && w == w' && q == q'
  {
    assert LabelledMatch(s, marker, i', w', q') && LabelledMatch(s, marker, i, w, q);
  }

  lemma FirstWriterUnique(s: string, from: int, i: int, a: int, c: int, b: int, d: int,
                          i': int, a': int, c': int, b': int, d': int)
    requires FirstWriter(s, from, i, a, c, b, d) && FirstWriter(s, from, i', a', c', b', d')
    ensures i == i' && a == a' && c == c' && b == b' && d == d'
  {
    assert WriterMatch(s, i', a', c', b', d') && WriterMatch(s, i, a, c, b, d);
  }

  /** Searching the suffix `s[off:]` and reading the match back in `s` gives what searching
      `s` from `off` gives. */
  lemma SearchLabelledSuffixAgrees(s: string, marker: string, off: nat)
    requires off <= |s|
    ensures var r := SearchLabelled(s[off..], marker, 0);
      var r' := SearchLabelled(s, marker, off);
      r.Some? == r'.Some? &&
      (r.Some? ==> r'.value == Span(r.value.start + off, r.value.groupStart + off, r.value.groupEnd + off))
  {
    SearchLabelledOnSuffix(s, marker, off);
    var r := SearchLabelled(s[off..], marker, 0);
    var r' := SearchLabelled(s, marker, off);
    if r.Some? {
      var m, m' := r.value, r'.value;
      FirstLabelledUnique(s, marker, off, m.start + off, m.groupStart + off, m.groupEnd + off,
                          m'.start, m'.groupStart, m'.groupEnd);
    }
  }

  lemma SearchWriterSuffixAgrees(s: string, off: nat)
    requires off <= |s|
    ensures var r := SearchWriter(s[off..], 0);
      var r' := SearchWriter(s, off);
      r.Some? == r'.Some? &&
      (r.Some? ==> r'.value == WriterSpan(r.value.start + off, r.value.p50Label + off, r.value.p50End + off,
                                          r.value.p99Label + off, r.value.p99End + off))
  {
    SearchWriterOnSuffixFails(s, off);
    SearchWriterIsFirst(s, off);
    var r := SearchWriter(s[off..], 0);
    var r' := SearchWriter(s, off);
    if r.Some? {
      FoundInSuffix(s, off, r.value);
      var m, m' := r.value, r'.value;
      FirstWriterUnique(s, off, m.start + off, m.p50Label + off, m.p50End + off, m.p99Label + off, m.p99End + off,
                        m'.start, m'.p50Label, m'.p50End, m'.p99Label, m'.p99End);
    }
  }
}
