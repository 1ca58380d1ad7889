/**
 * The report parser of the benchmark driver: reads the six figures of one load-test
 * run out of the text the load test prints.
 *
 * Two figures come from anywhere in the text, two from the read-latency section and
 * two from the first writer line of the per-writer section. A section is the text
 * from its header on; when the header is missing, Python's `s[-1:]` makes it the
 * last character alone. Figures are kept as the decimal lexemes the patterns match:
 * converting them to floating point is not modelled.
 */
module Report {
  import opened Wrappers
  import opened Text
  import opened Pattern

  const ReadThroughputMarker: string := "Total Read Throughput:"
  const WriteThroughputMarker: string := "Total Write Throughput:"
  const ReadSectionHeader: string := "Read Latency Statistics"
  const ReadP50Marker: string := "50th %ile:"
  const ReadP99Marker: string := "99th %ile:"
  const WriterSectionHeader: string := "Per-writer Thread Stats"

  /** The six figures of one run, each the text of a `\d+\.\d+` lexeme. */
  datatype BenchmarkResult = BenchmarkResult(
    readThroughput: string,
    writeThroughput: string,
    readLatencyP50: string,
    readLatencyP99: string,
    writeLatencyP50: string,
    writeLatencyP99: string)

  /** The five searches, in the order the parser runs them. A search that finds nothing
      ends the parse: Python raises when it asks the missing match for its group. */
  datatype Field = ReadThroughput | WriteThroughput | ReadLatencyP50 | ReadLatencyP99 | WriterStats

  function Rank(f: Field): nat {
    match f
    case ReadThroughput => 0
    case WriteThroughput => 1
    case ReadLatencyP50 => 2
    case ReadLatencyP99 => 3
    case WriterStats => 4
  }

  /** Where `s[s.find(header):]` starts in `s`. */
  function SectionStart(s: string, header: string): (k: nat)
    ensures k <= |s|
    ensures s[k..] == SliceFrom(s, Find(s, header))
  {
    var f := Find(s, header);
    if f >= 0 then f else if |s| == 0 then 0 else |s| - 1
  }

  /** Python's first match of `marker\s+(\d+\.\d+)` in `s[off:]` has group `v`. */
  ghost predicate Picks(s: string, marker: string, off: int, v: string) {
    exists i, w, q :: FirstLabelled(s, marker, off, i, w, q) && v == s[w..q]
  }

  /** Python's first match of the writer pattern in `s[off:]` has groups `p50` and `p99`. */
  ghost predicate WriterPicks(s: string, off: int, p50: string, p99: string) {
    exists i, a, c, b, d :: FirstWriter(s, off, i, a, c, b, d) && Groups(s, a, c, b, d) == (p50, p99)
  }

  /** The texts of the two groups of a writer match, or nothing when the positions are out of range. */
  function Groups(s: string, a: int, c: int, b: int, d: int): (string, string) {
    if 0 <= a + |P50Label| <= c <= |s| && 0 <= b + |P99Label| <= d <= |s|
    then (s[a + |P50Label|..c], s[b + |P99Label|..d])
    else ([], [])
  }

  /** The text of a whole `\d+\.\d+` lexeme. */
  ghost predicate IsDecimal(v: string) {
    DecimalSpan(v, 0, |v|)
  }

  /** `re.search(marker\s+(\d+\.\d+), s[off:]).group(1)`, failing with `field` when there is no match. */
  method SearchFigure(s: string, marker: string, off: nat, field: Field) returns (r: Result<string, Field>)
    requires off <= |s|
    ensures r.Success? <==> HasLabelled(s, marker, off)
    ensures r.Success? ==> Picks(s, marker, off, r.value)
    ensures r.Failure? ==> r.error == field
  {
    match SearchLabelled(s, marker, off)
    case None =>
      r := Failure(field);
    case Some(m) =>
      r := Success(s[m.groupStart..m.groupEnd]);
  }

  /** The two groups of `re.search(r"Writer 0:.*p50: (\d+\.\d+).*p99: (\d+\.\d+)", s[off:])`. */
  method SearchWriterFigures(s: string, off: nat) returns (r: Result<(string, string), Field>)
    requires off <= |s|
    ensures r.Success? <==> HasWriter(s, off)
    ensures r.Success? ==> WriterPicks(s, off, r.value.0, r.value.1)
    ensures r.Failure? ==> r.error == WriterStats
  {
    SearchWriterIsFirst(s, off);
    match SearchWriter(s, off)
    case None =>
      r := Failure(WriterStats);
    case Some(m) =>
      var g := Groups(s, m.p50Label, m.p50End, m.p99Label, m.p99End);
      assert WriterPicks(s, off, g.0, g.1);
      r := Success(g);
  }

  /** The search for `f` finds a match. */
  ghost predicate Available(s: string, f: Field) {
    match f
    case ReadThroughput => HasLabelled(s, ReadThroughputMarker, 0)
    case WriteThroughput => HasLabelled(s, WriteThroughputMarker, 0)
    case ReadLatencyP50 => HasLabelled(s, ReadP50Marker, SectionStart(s, ReadSectionHeader))
    case ReadLatencyP99 => HasLabelled(s, ReadP99Marker, SectionStart(s, ReadSectionHeader))
    case WriterStats => HasWriter(s, SectionStart(s, WriterSectionHeader))
  }

  /** `v` holds the groups of Python's first matches: the throughputs searched in the
      whole text, the read percentiles in the read-latency section, the write
      percentiles in the writer section. */
  ghost predicate Parsed(s: string, v: BenchmarkResult) {
    Picks(s, ReadThroughputMarker, 0, v.readThroughput) &&
    Picks(s, WriteThroughputMarker, 0, v.writeThroughput) &&
    Picks(s, ReadP50Marker, SectionStart(s, ReadSectionHeader), v.readLatencyP50) &&
    Picks(s, ReadP99Marker, SectionStart(s, ReadSectionHeader), v.readLatencyP99) &&
    WriterPicks(s, SectionStart(s, WriterSectionHeader), v.writeLatencyP50, v.writeLatencyP99)
  }

  /** `f` is the first search, in the parser's order, that finds nothing. */
  ghost predicate FirstMissing(s: string, f: Field) {
    !Available(s, f) && forall g :: Rank(g) < Rank(f) ==> Available(s, g)
  }

  /** What the parser reports on `s`: the figures when every search finds a match, the
      first search that finds nothing otherwise. */
  ghost predicate Reports(s: string, r: Result<BenchmarkResult, Field>) {
    match r
    case Success(v) => (forall f :: Available(s, f)) && Parsed(s, v)
    case Failure(f) => FirstMissing(s, f)
  }

  lemma PicksUnique(s: string, marker: string, off: int, v: string, v': string)
    requires Picks(s, marker, off, v) && Picks(s, marker, off, v')
    ensures v == v'
  {
    var i, w, q :| FirstLabelled(s, marker, off, i, w, q) && v == s[w..q];
    var i', w', q' :| FirstLabelled(s, marker, off, i', w', q') && v' == s[w'..q'];
    FirstLabelledUnique(s, marker, off, i, w, q, i', w', q');
  }

  lemma WriterPicksUnique(s: string, off: int, p50: string, p99: string, p50': string, p99': string)
    requires WriterPicks(s, off, p50, p99) && WriterPicks(s, off, p50', p99')
    ensures p50 == p50' && p99 == p99'
  {
    var i, a, c, b, d :| FirstWriter(s, off, i, a, c, b, d) && Groups(s, a, c, b, d) == (p50, p99);
    var i', a', c', b', d' :| FirstWriter(s, off, i', a', c', b', d') && Groups(s, a', c', b', d') == (p50', p99');
    FirstWriterUnique(s, off, i, a, c, b, d, i', a', c', b', d');
  }

  /** A report is a success exactly when every search finds a match. */
  lemma ReportsSuccess(s: string, r: Result<BenchmarkResult, Field>)
    requires Reports(s, r)
    ensures r.Success? <==> forall f :: Available(s, f)
  {
    if r.Failure? {
      var e := r.error;
      assert !Available(s, e);
    }
  }

  /** A text has at most one report: the parser's result is determined by its input. */
  lemma ReportsUnique(s: string, r: Result<BenchmarkResult, Field>, r': Result<BenchmarkResult, Field>)
    requires Reports(s, r) && Reports(s, r')
    ensures r == r'
  {
    ReportsSuccess(s, r);
    ReportsSuccess(s, r');
    if r.Failure? {
      var e, e' := r.error, r'.error;
      assert Rank(e) < Rank(e') ==> Available(s, e);
      assert Rank(e') < Rank(e) ==> Available(s, e');
    } else {
      var v, v' := r.value, r'.value;
      var sr := SectionStart(s, ReadSectionHeader);
      var sw := SectionStart(s, WriterSectionHeader);
      PicksUnique(s, ReadThroughputMarker, 0, v.readThroughput, v'.readThroughput);
      PicksUnique(s, WriteThroughputMarker, 0, v.writeThroughput, v'.writeThroughput);
      PicksUnique(s, ReadP50Marker, sr, v.readLatencyP50, v'.readLatencyP50);
      PicksUnique(s, ReadP99Marker, sr, v.readLatencyP99, v'.readLatencyP99);
      WriterPicksUnique(s, sw, v.writeLatencyP50, v.writeLatencyP99, v'.writeLatencyP50, v'.writeLatencyP99);
    }
  }

  lemma PickExists(s: string, marker: string, off: nat)
    requires HasLabelled(s, marker, off)
    ensures exists v :: Picks(s, marker, off, v)
  {
    var m := SearchLabelled(s, marker, off).value;
    assert Picks(s, marker, off, s[m.groupStart..m.groupEnd]);
  }

  lemma WriterPickExists(s: string, off: nat)
    requires HasWriter(s, off)
    ensures exists p50, p99 :: WriterPicks(s, off, p50, p99)
  {
    SearchWriterIsFirst(s, off);
    var m := SearchWriter(s, off).value;
    var g := Groups(s, m.p50Label, m.p50End, m.p99Label, m.p99End);
    assert WriterPicks(s, off, g.0, g.1);
  }

  /** Every text has a report. */
  lemma ReportsExist(s: string)
    ensures exists r :: Reports(s, r)
  {
    if !Available(s, ReadThroughput) {
      MissingFirst(s, ReadThroughput);
    } else if !Available(s, WriteThroughput) {
      MissingFirst(s, WriteThroughput);
    } else if !Available(s, ReadLatencyP50) {
      MissingFirst(s, ReadLatencyP50);
    } else if !Available(s, ReadLatencyP99) {
      MissingFirst(s, ReadLatencyP99);
    } else if !Available(s, WriterStats) {
      MissingFirst(s, WriterStats);
    } else {
      var v := SuccessExists(s);
      assert Reports(s, Success(v));
    }
  }

  /** When every search finds a match, the figures they pick form a report. */
  lemma SuccessExists(s: string) returns (v: BenchmarkResult)
    requires Available(s, ReadThroughput) && Available(s, WriteThroughput)
    requires Available(s, ReadLatencyP50) && Available(s, ReadLatencyP99) && Available(s, WriterStats)
    ensures Reports(s, Success(v))
  {
    var sr := SectionStart(s, ReadSectionHeader);
    var sw := SectionStart(s, WriterSectionHeader);
    PickExists(s, ReadThroughputMarker, 0);
    PickExists(s, WriteThroughputMarker, 0);
    PickExists(s, ReadP50Marker, sr);
    PickExists(s, ReadP99Marker, sr);
    WriterPickExists(s, sw);
    var rt :| Picks(s, ReadThroughputMarker, 0, rt);
    var wt :| Picks(s, WriteThroughputMarker, 0, wt);
    var p50 :| Picks(s, ReadP50Marker, sr, p50);
    var p99 :| Picks(s, ReadP99Marker, sr, p99);
    var w50, w99 :| WriterPicks(s, sw, w50, w99);
    v := BenchmarkResult(rt, wt, p50, p99, w50, w99);
    AllAvailable(s);
  }

  /** The five searches, one by one, are all the searches. */
  lemma AllAvailable(s: string)
    requires Available(s, ReadThroughput) && Available(s, WriteThroughput)
    requires Available(s, ReadLatencyP50) && Available(s, ReadLatencyP99) && Available(s, WriterStats)
    ensures forall f :: Available(s, f)
  {
    forall f ensures Available(s, f) {
      match f
      case ReadThroughput =>
      case WriteThroughput =>
      case ReadLatencyP50 =>
      case ReadLatencyP99 =>
      case WriterStats =>
    }
  }

  /** The report of `s`, defined by what it must be rather than by how it is computed. */
  ghost function Expected(s: string): (r: Result<BenchmarkResult, Field>)
    ensures Reports(s, r)
  {
    ReportsExist(s);
    var r :| Reports(s, r);
    r
  }

  /** The parser: the two throughputs from the whole text, the read percentiles from the
      read-latency section, the write percentiles from the writer section. It succeeds
      exactly when all five searches find a match, and every figure is then the group of
      Python's first match in its part of the text; otherwise it fails, naming the first
      search that finds nothing. */
  method ParseOutput(s: string) returns (r: Result<BenchmarkResult, Field>)
    ensures Reports(s, r)
  {
    var readThroughput := SearchFigure(s, ReadThroughputMarker, 0, ReadThroughput);
    if readThroughput.Failure? {
      r := Failure(ReadThroughput);
      MissingFirst(s, ReadThroughput);
      return;
    }
    assert Available(s, ReadThroughput);
    var writeThroughput := SearchFigure(s, WriteThroughputMarker, 0, WriteThroughput);
    if writeThroughput.Failure? {
      r := Failure(WriteThroughput);
      MissingFirst(s, WriteThroughput);
      return;
    }
    assert Available(s, WriteThroughput);
    var readSection := SectionStart(s, ReadSectionHeader);
    var readP50 := SearchFigure(s, ReadP50Marker, readSection, ReadLatencyP50);
    if readP50.Failure? {
      r := Failure(ReadLatencyP50);
      MissingFirst(s, ReadLatencyP50);
      return;
    }
    assert Available(s, ReadLatencyP50);
    var readP99 := SearchFigure(s, ReadP99Marker, readSection, ReadLatencyP99);
    if readP99.Failure? {
      r := Failure(ReadLatencyP99);
      MissingFirst(s, ReadLatencyP99);
      return;
    }
    assert Available(s, ReadLatencyP99);
    var writer := SearchWriterFigures(s, SectionStart(s, WriterSectionHeader));
    if writer.Failure? {
      r := Failure(WriterStats);
      MissingFirst(s, WriterStats);
      return;
    }
    r := Success(BenchmarkResult(readThroughput.value, writeThroughput.value, readP50.value, readP99.value,
                                 writer.value.0, writer.value.1));
    AllAvailable(s);
  }

  /** A search that finds nothing after all earlier ones found a match is the first missing one. */
  lemma MissingFirst(s: string, f: Field)
    requires !Available(s, f)
    requires Rank(f) > 0 ==> Available(s, ReadThroughput)
    requires Rank(f) > 1 ==> Available(s, WriteThroughput)
    requires Rank(f) > 2 ==> Available(s, ReadLatencyP50)
    requires Rank(f) > 3 ==> Available(s, ReadLatencyP99)
    ensures Reports(s, Failure(f))
  {
    forall g | Rank(g) < Rank(f)
      ensures Available(s, g)
    {
      match g
      case ReadThroughput =>
      case WriteThroughput =>
      case ReadLatencyP50 =>
      case ReadLatencyP99 =>
      case WriterStats =>
    }
  }

  /** A figure the parser picks is a whole lexeme, so `float()` accepts it. */
  lemma PicksDecimal(s: string, marker: string, off: int, v: string)
    requires Picks(s, marker, off, v)
    ensures IsDecimal(v)
  {
    var i, w, q :| FirstLabelled(s, marker, off, i, w, q) && v == s[w..q];
    DecimalGroup(s, w, q);
  }

  lemma WriterPicksDecimal(s: string, off: int, p50: string, p99: string)
    requires WriterPicks(s, off, p50, p99)
    ensures IsDecimal(p50) && IsDecimal(p99)
  {
    var i, a, c, b, d :| FirstWriter(s, off, i, a, c, b, d) && Groups(s, a, c, b, d) == (p50, p99);
    assert DecimalSpan(s, a + |P50Label|, c) && DecimalSpan(s, b + |P99Label|, d);
    GroupsDecimal(s, a, c, b, d);
  }

  lemma GroupsDecimal(s: string, a: int, c: int, b: int, d: int)
    requires DecimalSpan(s, a + |P50Label|, c) && DecimalSpan(s, b + |P99Label|, d)
    ensures IsDecimal(Groups(s, a, c, b, d).0) && IsDecimal(Groups(s, a, c, b, d).1)
  {
    DecimalGroup(s, a + |P50Label|, c);
    DecimalGroup(s, b + |P99Label|, d);
  }

  /** A text without the read-latency header never yields the read percentiles: the
      section is then at most one character, too short for either marker. */
  lemma MissingReadHeader(s: string)
    requires Find(s, ReadSectionHeader) == -1
    ensures !Available(s, ReadLatencyP50) && !Available(s, ReadLatencyP99)
  {
  }

  /** The same for the writer section. */
  lemma MissingWriterHeader(s: string)
    requires Find(s, WriterSectionHeader) == -1
    ensures !Available(s, WriterStats)
  {
  }
}
