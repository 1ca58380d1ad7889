/**
 * The benchmark sweep: which load-test runs the driver makes and with which
 * arguments, how a run's output becomes a `BenchmarkResult`, and how the results
 * become the rows of the CSV table.
 *
 * Running a process is a parameter `run` from the argument vector to the exit code
 * and standard output the process would produce; whether a path exists is a
 * parameter `pathExists`, true of files and directories alike, as `Path.exists()` is.
 */
module Sweep {
  import opened Wrappers
  import opened Text
  import opened Report

  /** The two skip list implementations the sweep compares, in the order it runs them. */
  datatype Variant = Mutex | Atomic

  /** The type code the load test takes as its first argument. */
  function Code(v: Variant): nat {
    match v
    case Mutex => 2
    case Atomic => 1
  }

  /** The prefix of the variant's column names. */
  function Name(v: Variant): string {
    match v
    case Mutex => "mutex"
    case Atomic => "atomic"
  }

  const Variants: seq<Variant> := [Mutex, Atomic]
  const ReaderCounts: seq<nat> := [1, 2, 4, 8, 16]

  /** How the load test reads its first argument: 1 selects the atomic single-writer
      skip list, 2 the mutex one; 0 (the plain skip list) and other codes stop it. */
  function LoadTestVariant(code: int): (r: Option<Variant>)
    ensures r.Some? ==> Code(r.value) == code
    ensures code == 1 || code == 2 ==> r.Some?
  {
    if code == 1 then Some(Atomic) else if code == 2 then Some(Mutex) else None
  }

  /** The command line of one run: the executable, the type code, the reader count and
      one writer. */
  function Argv(exe: string, v: Variant, readers: nat): (argv: seq<string>)
    ensures |argv| == 4 && argv[0] == exe
    ensures forall i, j :: 1 <= i < 4 && 0 <= j < |argv[i]| ==> IsDigit(argv[i][j])
  {
    [exe, NatToString(Code(v)), NatToString(readers), "1"]
  }

  /** The largest value of a C++ `int`, the type `std::stoi` returns. */
  const IntMax: int := 0x7fff_ffff

  /** `std::stoi` on a string of decimal digits: `std::invalid_argument` (None) when there
      is no digit, `std::out_of_range` (None) when the value does not fit an `int`. */
  function Stoi(s: string): (r: Option<int>)
    requires forall i :: 0 <= i < |s| ==> IsDigit(s[i])
    ensures r.Some? <==> |s| > 0 && DigitsValue(s) <= IntMax
    ensures r.Some? ==> r.value == DigitsValue(s) && 0 <= r.value <= IntMax
  {
    if |s| == 0 || DigitsValue(s) > IntMax then None else Some(DigitsValue(s))
  }

  /** `std::stoi` reads back what `str(n)` prints exactly when `n` fits an `int`. */
  lemma StoiOfString(n: nat)
    ensures Stoi(NatToString(n)) == if n <= IntMax then Some(n) else None
  {
  }

  /** The load test, reading the arguments back with `std::stoi`, runs the requested
      variant with one writer, and with the requested number of readers when that
      number fits an `int`; a larger one makes `std::stoi` throw. */
  lemma ArgvRoundTrip(exe: string, v: Variant, readers: nat)
    ensures var argv := Argv(exe, v, readers);
      Stoi(argv[1]).Some? && LoadTestVariant(Stoi(argv[1]).value) == Some(v) &&
      Stoi(argv[2]) == (if readers <= IntMax then Some(readers) else None) &&
      Stoi(argv[3]) == Some(1)
  {
    StoiOfString(Code(v));
    StoiOfString(readers);
    StoiOfString(1);
  }

  /** Different runs have different command lines. */
  lemma ArgvInjective(exe: string, v: Variant, readers: nat, v': Variant, readers': nat)
    requires Argv(exe, v, readers) == Argv(exe, v', readers')
    ensures v == v' && readers == readers'
  {
    NatToStringInjective(Code(v), Code(v'));
    NatToStringInjective(readers, readers');
  }

  // ---------------------------------------------------------------------------
  // One run

  /** What running a process yields: its exit code and its standard output. */
  datatype ProcessResult = ProcessResult(code: int, stdout: string)

  /** Why a run produced no result: the process exited non-zero (`CalledProcessError`,
      which carries the command, the exit code and the output), or its output lacks a
      figure (the parser's failed search). */
  datatype RunError = ToolFailed(argv: seq<string>, code: int, output: string) | Malformed(field: Field)

  /** What one run yields, defined from the parser's specification. */
  ghost function ExpectedRun(exe: string, run: seq<string> -> ProcessResult, v: Variant, readers: nat): Result<BenchmarkResult, RunError>
  {
    var argv := Argv(exe, v, readers);
    var p := run(argv);
    if p.code != 0 then Failure(ToolFailed(argv, p.code, p.stdout))
    else
      match Expected(p.stdout)
      case Success(res) => Success(res)
      case Failure(f) => Failure(Malformed(f))
  }

  /** A run whose process exits non-zero fails with the command, the exit code and the
      output; otherwise it yields the parser's report of the output, a missing figure
      becoming a `Malformed` error. */
  lemma ExpectedRunMeaning(exe: string, run: seq<string> -> ProcessResult, v: Variant, readers: nat)
    ensures var p := run(Argv(exe, v, readers));
      var r := ExpectedRun(exe, run, v, readers);
      (p.code != 0 ==> r == Failure(ToolFailed(Argv(exe, v, readers), p.code, p.stdout))) &&
      (p.code == 0 && r.Success? ==> Reports(p.stdout, Success(r.value))) &&
      (p.code == 0 && r.Failure? ==> r.error.Malformed? && Reports(p.stdout, Failure(r.error.field)))
  {
  }

  /** What every run of a sweep with executable `exe` yields. */
  ghost function Outcomes(exe: string, run: seq<string> -> ProcessResult): Bench {
    (v: Variant, n: nat) => ExpectedRun(exe, run, v, n)
  }

  /** Runs the load test for one variant and reader count and parses its output. */
  method RunBenchmark(exe: string, v: Variant, readers: nat, run: seq<string> -> ProcessResult)
    returns (r: Result<BenchmarkResult, RunError>)
    ensures r == ExpectedRun(exe, run, v, readers)
  {
    var argv := Argv(exe, v, readers);
    var p := run(argv);
    if p.code != 0 {
      return Failure(ToolFailed(argv, p.code, p.stdout));
    }
    var parsed := ParseOutput(p.stdout);
    ReportsUnique(p.stdout, parsed, Expected(p.stdout));
    match parsed
    case Success(res) =>
      r := Success(res);
    case Failure(f) =>
      r := Failure(Malformed(f));
  }

  // ---------------------------------------------------------------------------
  // Rows and the CSV table

  /** A cell of the table: the reader count, a figure, or the blank `csv.DictWriter`
      writes for a header field the row lacks. */
  datatype Cell = Count(n: nat) | Figure(text: string) | Blank

  type Row = map<string, Cell>

  /** The cells one variant adds to a row. */
  function Cells(v: Variant, r: BenchmarkResult): (row: Row)
    ensures forall key :: key in row ==> row[key].Figure?
  {
    map[
      Name(v) + "_read_throughput" := Figure(r.readThroughput),
      Name(v) + "_write_throughput" := Figure(r.writeThroughput),
      Name(v) + "_read_latency_p50" := Figure(r.readLatencyP50),
      Name(v) + "_read_latency_p99" := Figure(r.readLatencyP99),
      Name(v) + "_write_latency_p50" := Figure(r.writeLatencyP50),
      Name(v) + "_write_latency_p99" := Figure(r.writeLatencyP99)]
  }

  /** The row for one reader count: the count, then the cells of each variant in turn. */
  function RowOf(readers: nat, mutex: BenchmarkResult, atomic: BenchmarkResult): (row: Row)
    ensures "num_readers" in row && row["num_readers"] == Count(readers)
    ensures forall key :: key in row && key != "num_readers" ==> row[key].Figure?
  {
    map["num_readers" := Count(readers)] + Cells(Mutex, mutex) + Cells(Atomic, atomic)
  }

  /** The header of the CSV table. */
  const FieldNames: seq<string> := [
    "num_readers",
    "mutex_read_throughput",
    "mutex_write_throughput",
    "mutex_read_latency_p50",
    "mutex_read_latency_p99",
    "mutex_write_latency_p50",
    "mutex_write_latency_p99",
    "atomic_read_throughput",
    "atomic_write_throughput",
    "atomic_read_latency_p50",
    "atomic_read_latency_p99",
    "atomic_write_latency_p50",
    "atomic_write_latency_p99"
  ]

  /** What `csv.DictWriter(f, fieldnames=header).writerow(row)` writes: the row's values
      in header order, a blank for a missing field, and a `ValueError` (None) when the
      row has a key the header lacks. */
  function CsvRecord(header: seq<string>, row: Row): (r: Option<seq<Cell>>)
    ensures r.Some? <==> forall k :: k in row ==> k in header
    ensures r.Some? ==> |r.value| == |header|
  {
    if forall k :: k in row ==> k in header then
      Some(seq(|header|, i requires 0 <= i < |header| => if header[i] in row then row[header[i]] else Blank))
    else None
  }

  /** The figures of one result in column order. */
  function Figures(r: BenchmarkResult): seq<Cell> {
    [Figure(r.readThroughput), Figure(r.writeThroughput), Figure(r.readLatencyP50),
     Figure(r.readLatencyP99), Figure(r.writeLatencyP50), Figure(r.writeLatencyP99)]
  }

  /** The column suffixes, in the order the header lists them. */
  const Suffixes: seq<string> := [
    "_read_throughput", "_write_throughput", "_read_latency_p50",
    "_read_latency_p99", "_write_latency_p50", "_write_latency_p99"]

  /** A common prefix keeps distinct suffixes apart. */
  lemma PrefixedApart(x: string, i: nat, j: nat)
    requires i < j < |Suffixes|
    ensures x + Suffixes[i] != x + Suffixes[j]
  {
    assert (x + Suffixes[i])[|x|..] == Suffixes[i];
    assert (x + Suffixes[j])[|x|..] == Suffixes[j];
  }

  /** A variant's cells are keyed by its name followed by each suffix, and hold its
      figures in column order. */
  lemma CellsColumns(v: Variant, r: BenchmarkResult)
    ensures forall i :: 0 <= i < |Suffixes| ==>
      Name(v) + Suffixes[i] in Cells(v, r) && Cells(v, r)[Name(v) + Suffixes[i]] == Figures(r)[i]
    ensures forall k :: k in Cells(v, r) ==> exists i :: 0 <= i < |Suffixes| && k == Name(v) + Suffixes[i]
  {
    var x := Name(v);
    forall i, j | 0 <= i < j < |Suffixes|
      ensures x + Suffixes[i] != x + Suffixes[j]
    {
      PrefixedApart(x, i, j);
    }
    var c := Cells(v, r);
    assert c == map[
      x + Suffixes[0] := Figures(r)[0], x + Suffixes[1] := Figures(r)[1], x + Suffixes[2] := Figures(r)[2],
      x + Suffixes[3] := Figures(r)[3], x + Suffixes[4] := Figures(r)[4], x + Suffixes[5] := Figures(r)[5]];
  }

  /** The header is the reader count followed by the columns of each variant in turn. */
  lemma HeaderColumns()
    ensures FieldNames[0] == "num_readers"
    ensures forall i :: 0 <= i < |Suffixes| ==> FieldNames[1 + i] == Name(Mutex) + Suffixes[i]
    ensures forall i :: 0 <= i < |Suffixes| ==> FieldNames[7 + i] == Name(Atomic) + Suffixes[i]
  {
    forall i | 0 <= i < |Suffixes|
      ensures FieldNames[1 + i] == Name(Mutex) + Suffixes[i]
      ensures FieldNames[7 + i] == Name(Atomic) + Suffixes[i]
    {
      ColumnNames(i);
    }
  }

  /** The mutex and atomic columns with suffix `i`. */
  lemma ColumnNames(i: nat)
    requires i < |Suffixes|
    ensures FieldNames[1 + i] == Name(Mutex) + Suffixes[i]
    ensures FieldNames[7 + i] == Name(Atomic) + Suffixes[i]
  {
    if i == 0 {
      ReadThroughputColumns();
    } else if i == 1 {
      WriteThroughputColumns();
    } else if i == 2 {
      ReadP50Columns();
    } else if i == 3 {
      ReadP99Columns();
    } else if i == 4 {
      WriteP50Columns();
    } else {
      WriteP99Columns();
    }
  }

  lemma ReadThroughputColumns()
    ensures FieldNames[1] == Name(Mutex) + Suffixes[0]
    ensures FieldNames[7] == Name(Atomic) + Suffixes[0]
  {
  }

  lemma WriteThroughputColumns()
    ensures FieldNames[2] == Name(Mutex) + Suffixes[1]
    ensures FieldNames[8] == Name(Atomic) + Suffixes[1]
  {
  }

  lemma ReadP50Columns()
    ensures FieldNames[3] == Name(Mutex) + Suffixes[2]
    ensures FieldNames[9] == Name(Atomic) + Suffixes[2]
  {
  }

  lemma ReadP99Columns()
    ensures FieldNames[4] == Name(Mutex) + Suffixes[3]
    ensures FieldNames[10] == Name(Atomic) + Suffixes[3]
  {
  }

  lemma WriteP50Columns()
    ensures FieldNames[5] == Name(Mutex) + Suffixes[4]
    ensures FieldNames[11] == Name(Atomic) + Suffixes[4]
  {
  }

  lemma WriteP99Columns()
    ensures FieldNames[6] == Name(Mutex) + Suffixes[5]
    ensures FieldNames[12] == Name(Atomic) + Suffixes[5]
  {
  }

  /** Keys of different sources start with different letters. */
  lemma KeysApart(v: Variant, r: BenchmarkResult, k: string)
    requires k in Cells(v, r)
    ensures |k| > 0 && k[0] == Name(v)[0]
  {
    CellsColumns(v, r);
  }

  /** The line of a row, as the header orders it. */
  function Line(readers: nat, mutex: BenchmarkResult, atomic: BenchmarkResult): seq<Cell> {
    [Count(readers)] + Figures(mutex) + Figures(atomic)
  }

  /** The mutex column with suffix `j` holds the `j`-th mutex figure. */
  lemma MutexCell(readers: nat, mutex: BenchmarkResult, atomic: BenchmarkResult, j: nat)
    requires j < |Suffixes|
    ensures Name(Mutex) + Suffixes[j] in RowOf(readers, mutex, atomic)
    ensures RowOf(readers, mutex, atomic)[Name(Mutex) + Suffixes[j]] == Figures(mutex)[j]
  {
    var k := Name(Mutex) + Suffixes[j];
    CellsColumns(Mutex, mutex);
    assert k in Cells(Mutex, mutex);
    if k in Cells(Atomic, atomic) {
      KeysApart(Atomic, atomic, k);
    }
  }

  /** The atomic column with suffix `j` holds the `j`-th atomic figure. */
  lemma AtomicCell(readers: nat, mutex: BenchmarkResult, atomic: BenchmarkResult, j: nat)
    requires j < |Suffixes|
    ensures Name(Atomic) + Suffixes[j] in RowOf(readers, mutex, atomic)
    ensures RowOf(readers, mutex, atomic)[Name(Atomic) + Suffixes[j]] == Figures(atomic)[j]
  {
    CellsColumns(Atomic, atomic);
  }

  /** The reader-count column holds the count. */
  lemma CountCell(readers: nat, mutex: BenchmarkResult, atomic: BenchmarkResult)
    ensures "num_readers" in RowOf(readers, mutex, atomic)
    ensures RowOf(readers, mutex, atomic)["num_readers"] == Count(readers)
  {
    var k := "num_readers";
    if k in Cells(Atomic, atomic) {
      KeysApart(Atomic, atomic, k);
    }
    if k in Cells(Mutex, mutex) {
      KeysApart(Mutex, mutex, k);
    }
  }

  /** Column `i` of the header is a key of every row, holding the `i`-th cell of its line. */
  lemma RowAt(readers: nat, mutex: BenchmarkResult, atomic: BenchmarkResult, i: nat)
    requires i < |FieldNames|
    ensures FieldNames[i] in RowOf(readers, mutex, atomic)
    ensures RowOf(readers, mutex, atomic)[FieldNames[i]] == Line(readers, mutex, atomic)[i]
  {
    HeaderColumns();
    var line := Line(readers, mutex, atomic);
    if i == 0 {
      CountCell(readers, mutex, atomic);
    } else if i < 7 {
      MutexCell(readers, mutex, atomic, i - 1);
      assert line[i] == Figures(mutex)[i - 1];
    } else {
      AtomicCell(readers, mutex, atomic, i - 7);
      assert line[i] == Figures(atomic)[i - 7];
    }
  }

  /** The column names built from the variant names agree with the hard-coded header:
      every row fits it, and the line written for a row is the reader count followed by
      the mutex figures and then the atomic ones. */
  lemma RowFitsHeader(readers: nat, mutex: BenchmarkResult, atomic: BenchmarkResult)
    ensures CsvRecord(FieldNames, RowOf(readers, mutex, atomic)) == Some(Line(readers, mutex, atomic))
  {
    var row := RowOf(readers, mutex, atomic);
    RowKeys(readers, mutex, atomic);
    var rec := CsvRecord(FieldNames, row).value;
    var line := Line(readers, mutex, atomic);
    assert |rec| == |line|;
    forall i | 0 <= i < |FieldNames|
      ensures rec[i] == line[i]
    {
      RowAt(readers, mutex, atomic, i);
    }
    assert rec == line;
  }

  /** Every key of a row is a column of the header. */
  lemma RowKeys(readers: nat, mutex: BenchmarkResult, atomic: BenchmarkResult)
    ensures forall k :: k in RowOf(readers, mutex, atomic) ==> k in FieldNames
  {
    var row := RowOf(readers, mutex, atomic);
    HeaderColumns();
    CellsColumns(Mutex, mutex);
    CellsColumns(Atomic, atomic);
    forall k | k in row
      ensures k in FieldNames
    {
      if k in Cells(Atomic, atomic) {
        var i :| 0 <= i < |Suffixes| && k == Name(Atomic) + Suffixes[i];
        assert k == FieldNames[7 + i];
      } else if k in Cells(Mutex, mutex) {
        var i :| 0 <= i < |Suffixes| && k == Name(Mutex) + Suffixes[i];
        assert k == FieldNames[1 + i];
      } else {
        assert k == FieldNames[0];
      }
    }
  }

  /** The keys of a row are exactly the columns of the header. */
  lemma RowKeySet(readers: nat, mutex: BenchmarkResult, atomic: BenchmarkResult)
    ensures forall k :: k in RowOf(readers, mutex, atomic) <==> k in FieldNames
  {
    RowKeys(readers, mutex, atomic);
    forall i | 0 <= i < |FieldNames|
      ensures FieldNames[i] in RowOf(readers, mutex, atomic)
    {
      RowAt(readers, mutex, atomic, i);
    }
  }

  /** The header names every column once. */
  lemma FieldNamesDistinct()
    ensures forall i, j :: 0 <= i < j < |FieldNames| ==> FieldNames[i] != FieldNames[j]
  {
  }

  // ---------------------------------------------------------------------------
  // The sweep

  /** What each run of the sweep yields, by variant and reader count. */
  type Bench = (Variant, nat) -> Result<BenchmarkResult, RunError>

  /** The sweep over the reader counts `counts`, in order, each with the mutex variant
      and then the atomic one: a row per count, or the error of the first run that fails.
      No run after a failing one is made. */
  function Rows(bench: Bench, counts: seq<nat>): (r: Result<seq<Row>, RunError>)
    ensures r.Success? ==> |r.value| == |counts|
    decreases |counts|
  {
    if counts == [] then Success([])
    else
      var mutex :- bench(Mutex, counts[0]);
      var atomic :- bench(Atomic, counts[0]);
      var rest :- Rows(bench, counts[1..]);
      Success([RowOf(counts[0], mutex, atomic)] + rest)
  }

  /** The rows collected so far, followed by what the remaining counts yield. */
  function Prepend(rows: seq<Row>, rest: Result<seq<Row>, RunError>): Result<seq<Row>, RunError> {
    match rest
    case Success(more) => Success(rows + more)
    case Failure(e) => Failure(e)
  }

  lemma PrependNothing(r: Result<seq<Row>, RunError>)
    ensures Prepend([], r) == r
  {
    if r.Success? {
      assert [] + r.value == r.value;
    }
  }

  /** The first reader count of a sweep: its two runs, then the rest. */
  lemma RowsFirst(bench: Bench, c: seq<nat>)
    requires |c| > 0
    ensures bench(Mutex, c[0]).Failure? ==> Rows(bench, c) == Failure(bench(Mutex, c[0]).error)
    ensures bench(Mutex, c[0]).Success? && bench(Atomic, c[0]).Failure? ==>
      Rows(bench, c) == Failure(bench(Atomic, c[0]).error)
    ensures bench(Mutex, c[0]).Success? && bench(Atomic, c[0]).Success? ==>
      Rows(bench, c) == Prepend([RowOf(c[0], bench(Mutex, c[0]).value, bench(Atomic, c[0]).value)],
        Rows(bench, c[1..]))
  {
  }

  lemma PrependTwice(rows: seq<Row>, row: Row, rest: Result<seq<Row>, RunError>)
    ensures Prepend(rows, Prepend([row], rest)) == Prepend(rows + [row], rest)
  {
    if rest.Success? {
      assert rows + ([row] + rest.value) == rows + [row] + rest.value;
    }
  }

  /** One reader count further into the sweep. */
  lemma RowsStep(bench: Bench, counts: seq<nat>, j: nat, rows: seq<Row>)
    requires j < |counts|
    requires Rows(bench, counts) == Prepend(rows, Rows(bench, counts[j..]))
    ensures bench(Mutex, counts[j]).Failure? ==>
      Rows(bench, counts) == Failure(bench(Mutex, counts[j]).error)
    ensures bench(Mutex, counts[j]).Success? && bench(Atomic, counts[j]).Failure? ==>
      Rows(bench, counts) == Failure(bench(Atomic, counts[j]).error)
    ensures bench(Mutex, counts[j]).Success? && bench(Atomic, counts[j]).Success? ==>
      Rows(bench, counts) == Prepend(
        rows + [RowOf(counts[j], bench(Mutex, counts[j]).value, bench(Atomic, counts[j]).value)],
        Rows(bench, counts[j + 1..]))
  {
    var c := counts[j..];
    assert c[0] == counts[j] && c[1..] == counts[j + 1..];
    RowsFirst(bench, c);
    var m := bench(Mutex, counts[j]);
    var a := bench(Atomic, counts[j]);
    if m.Success? && a.Success? {
      PrependTwice(rows, RowOf(counts[j], m.value, a.value), Rows(bench, counts[j + 1..]));
    }
  }

  /** The sweep: for each reader count, run the mutex variant and then the atomic one and
      collect their figures in one row; the first failing run ends the sweep. */
  method RunSweep(exe: string, run: seq<string> -> ProcessResult, counts: seq<nat>) returns (r: Result<seq<Row>, RunError>)
    ensures r == Rows(Outcomes(exe, run), counts)
  {
    ghost var bench := Outcomes(exe, run);
    var rows: seq<Row> := [];
    var j := 0;
    assert counts[j..] == counts;
    PrependNothing(Rows(bench, counts));
    while j < |counts|
      invariant 0 <= j <= |counts|
      invariant Rows(bench, counts) == Prepend(rows, Rows(bench, counts[j..]))
    {
      var readers := counts[j];
      RowsStep(bench, counts, j, rows);
      var mutex := RunBenchmark(exe, Mutex, readers, run);
      if mutex.Failure? {
        assert mutex == bench(Mutex, counts[j]);
        return Failure(mutex.error);
      }
      var atomic := RunBenchmark(exe, Atomic, readers, run);
      if atomic.Failure? {
        assert atomic == bench(Atomic, counts[j]);
        return Failure(atomic.error);
      }
      assert mutex == bench(Mutex, counts[j]) && atomic == bench(Atomic, counts[j]);
      rows := rows + [RowOf(readers, mutex.value, atomic.value)];
      j := j + 1;
    }
    assert counts[j..] == [];
    assert rows + [] == rows;
    r := Success(rows);
  }

  /** Every row of a completed sweep fits the header, and its line is the reader count
      followed by the figures of the two runs made for that count. */
  lemma {:induction false} RowsContent(bench: Bench, counts: seq<nat>)
    ensures var r := Rows(bench, counts);
      r.Success? ==> forall j :: 0 <= j < |counts| ==>
        bench(Mutex, counts[j]).Success? && bench(Atomic, counts[j]).Success? &&
        CsvRecord(FieldNames, r.value[j]) ==
          Some([Count(counts[j])] + Figures(bench(Mutex, counts[j]).value) + Figures(bench(Atomic, counts[j]).value))
    decreases |counts|
  {
    var r := Rows(bench, counts);
    if r.Success? && counts != [] {
      RowsContent(bench, counts[1..]);
      forall j | 0 <= j < |counts|
        ensures bench(Mutex, counts[j]).Success? && bench(Atomic, counts[j]).Success?
        ensures CsvRecord(FieldNames, r.value[j]) ==
          Some([Count(counts[j])] + Figures(bench(Mutex, counts[j]).value) + Figures(bench(Atomic, counts[j]).value))
      {
        if j == 0 {
          RowFitsHeader(counts[0], bench(Mutex, counts[0]).value, bench(Atomic, counts[0]).value);
        } else {
          assert counts[1..][j - 1] == counts[j];
        }
      }
    }
  }

  /** Run number `t` of the sweep over `counts`: the mutex run for `counts[t / 2]` when
      `t` is even, the atomic one when it is odd. */
  function Scheduled(bench: Bench, counts: seq<nat>, t: nat): Result<BenchmarkResult, RunError>
    requires t < 2 * |counts|
  {
    bench(Variants[t % 2], counts[t / 2])
  }

  /** Run `t` fails with `e` and every earlier run succeeds. */
  ghost predicate FailsFirst(bench: Bench, counts: seq<nat>, t: nat, e: RunError)
    requires t < 2 * |counts|
  {
    Scheduled(bench, counts, t) == Failure(e) &&
    forall u :: 0 <= u < t ==> Scheduled(bench, counts, u).Success?
  }

  /** A sweep fails exactly when one of its runs fails, and then with the error of the
      first failing run in sweep order. */
  lemma {:induction false} RowsFailure(bench: Bench, counts: seq<nat>)
    ensures var r := Rows(bench, counts);
      r.Failure? ==> exists t :: 0 <= t < 2 * |counts| && FailsFirst(bench, counts, t, r.error)
    ensures Rows(bench, counts).Success? ==> forall t :: 0 <= t < 2 * |counts| ==> Scheduled(bench, counts, t).Success?
    decreases |counts|
  {
    var r := Rows(bench, counts);
    if counts != [] {
      RowsFailure(bench, counts[1..]);
      forall u | 2 <= u < 2 * |counts|
        ensures Scheduled(bench, counts, u) == Scheduled(bench, counts[1..], u - 2)
      {
        assert counts[1..][(u - 2) / 2] == counts[u / 2];
      }
      var m := bench(Mutex, counts[0]);
      var a := bench(Atomic, counts[0]);
      if r.Failure? {
        if m.Failure? {
          assert FailsFirst(bench, counts, 0, r.error);
        } else if a.Failure? {
          assert FailsFirst(bench, counts, 1, r.error);
        } else {
          var t :| 0 <= t < 2 * |counts[1..]| && FailsFirst(bench, counts[1..], t, r.error);
          assert FailsFirst(bench, counts, t + 2, r.error);
        }
      }
    }
  }

  // ---------------------------------------------------------------------------
  // Finding the executable and the whole driver

  const BuildDirs: seq<string> := ["build", "build-release"]
  const ExecutableName: string := "concurrent_load_test"
  const NotFoundMessage: string :=
    "Could not find concurrent_load_test executable. Please build the project first using:\n" +
    "mkdir build && cd build && cmake -DCMAKE_BUILD_TYPE=Release .. && make"

  /** `root / dir / "concurrent_load_test"`. */
  function Candidate(root: string, dir: string): string {
    root + "/" + dir + "/" + ExecutableName
  }

  /** The first candidate in build-directory order that exists, as a file or a directory. */
  function FirstExisting(root: string, dirs: seq<string>, pathExists: string -> bool): (r: Option<string>)
    ensures r.Some? ==> pathExists(r.value)
    ensures r.Some? ==> exists i :: 0 <= i < |dirs| && r.value == Candidate(root, dirs[i]) &&
                          (forall j :: 0 <= j < i ==> !pathExists(Candidate(root, dirs[j])))
    ensures r.None? ==> forall i :: 0 <= i < |dirs| ==> !pathExists(Candidate(root, dirs[i]))
  {
    if dirs == [] then None
    else if pathExists(Candidate(root, dirs[0])) then Some(Candidate(root, dirs[0]))
    else
      var r := FirstExisting(root, dirs[1..], pathExists);
      assert r.Some? ==> exists i :: 1 <= i < |dirs| && r.value == Candidate(root, dirs[i]) &&
                           (forall j :: 0 <= j < i ==> !pathExists(Candidate(root, dirs[j]))) by {
        if r.Some? {
          var i :| 0 <= i < |dirs[1..]| && r.value == Candidate(root, dirs[1..][i]) &&
            forall j :: 0 <= j < i ==> !pathExists(Candidate(root, dirs[1..][j]));
          assert forall j :: 1 <= j < i + 1 ==> dirs[j] == dirs[1..][j - 1];
        }
      }
      r
  }

  /** The executable under `build/`, else under `build-release/`, else `FileNotFoundError`. */
  function FindLoadTestExecutable(root: string, pathExists: string -> bool): (r: Result<string, string>)
    ensures r.Success? ==> pathExists(r.value)
    ensures r.Success? ==>
      (r.value == Candidate(root, "build") ||
       (!pathExists(Candidate(root, "build")) && r.value == Candidate(root, "build-release")))
    ensures r.Failure? <==> !pathExists(Candidate(root, "build")) && !pathExists(Candidate(root, "build-release"))
    ensures r.Failure? ==> r.error == NotFoundMessage
  {
    assert BuildDirs[0] == "build" && BuildDirs[1] == "build-release";
    FirstExisting(root, BuildDirs, pathExists).ToResult(NotFoundMessage)
  }

  /** How the driver ends: it prints that the executable is missing and returns, it stops
      on the exception of a failed run, or it writes the table. */
  datatype Outcome = NoExecutable(message: string) | Aborted(error: RunError) | Written(header: seq<string>, rows: seq<Row>)

  /** The driver: find the executable, run the sweep, write the table with the fixed header. */
  method RunDriver(root: string, pathExists: string -> bool, run: seq<string> -> ProcessResult) returns (o: Outcome)
    ensures FindLoadTestExecutable(root, pathExists).Failure? ==> o == NoExecutable(NotFoundMessage)
    ensures FindLoadTestExecutable(root, pathExists).Success? ==>
      var exe := FindLoadTestExecutable(root, pathExists).value;
      var rows := Rows(Outcomes(exe, run), ReaderCounts);
      o == (if rows.Success? then Written(FieldNames, rows.value) else Aborted(rows.error))
  {
    var found := FindLoadTestExecutable(root, pathExists);
    if found.Failure? {
      return NoExecutable(found.error);
    }
    var rows := RunSweep(found.value, run, ReaderCounts);
    if rows.Failure? {
      return Aborted(rows.error);
    }
    o := Written(FieldNames, rows.value);
  }

}
