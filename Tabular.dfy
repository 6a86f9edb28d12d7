/**
 * The tabular file reader backed by Super CSV (`SuperCsvFileReader`): a thin
 * layer over a `CsvListReader` that manages an optional header record. The
 * header, when the file has one, is the first record of the stream; it is
 * taken out of the stream either by `getHeaderLine()` or, if that was never
 * called, by the first `read()`, and is never handed out as a data row.
 *
 * The reader's behaviour is first stated on values (`ReaderState` and one
 * step function per public method), then the class `SuperCsvFileReader`
 * implements each method and promises that it performs exactly that step.
 */
module Tabular {
  import opened Wrappers
  import opened SuperCsv

  /** The first record of a stream, if there is one. */
  function First(records: seq<Record>): Option<Record>
  {
    if |records| > 0 then Some(records[0]) else None
  }

  /** The fields of a `SuperCsvFileReader`, with the list reader as a `Queue`. */
  datatype ReaderState = ReaderState(
    csv: Queue,
    headerLineIncluded: bool,
    headerLineRead: bool,
    headerLine: Option<Record>)
  {
    /**
     * The reader's invariant: while the header has not been read nothing has
     * been consumed; once it has been read, the stored header is the first
     * record of the stream (or null for an empty stream, or when the file has
     * no header) and the cursor is past it.
     */
    ghost predicate Valid() {
      csv.Valid()
      && (!headerLineIncluded ==> headerLineRead && headerLine == None)
      && (!headerLineRead ==> csv.pos == 0 && headerLine == None)
      && (headerLineIncluded && headerLineRead ==>
            headerLine == First(csv.records) && |HeaderPart()| <= csv.pos)
    }

    /** The stored header as a sequence of zero or one records. */
    function HeaderPart(): seq<Record>
    {
      if headerLine.Some? then [headerLine.value] else []
    }

    /** The records taken from the underlying stream so far. */
    function Consumed(): seq<Record>
      requires csv.Valid()
    {
      csv.Consumed()
    }
  }

  /** The state right after construction. */
  function Init(records: seq<Record>, headerLineIncluded: bool): (s: ReaderState)
    ensures s.Valid() && s.csv.records == records && s.Consumed() == [] && !s.csv.closed
    ensures s.headerLineRead <==> !headerLineIncluded
  {
    ReaderState(Queue(records, 0, false), headerLineIncluded, !headerLineIncluded, None)
  }

  /**
   * `getHeaderLine()`. The first call on a header-bearing stream consumes one
   * record (or nothing, when the stream is empty) and returns it; every other
   * call consumes nothing and returns the stored header. If the underlying
   * read throws, no field is updated.
   */
  function HeaderStep(s: ReaderState): (res: (ReaderState, Result<Option<Record>, IOException>))
    requires s.Valid()
    ensures res.0.Valid()
    ensures res.0.csv.records == s.csv.records && res.0.csv.closed == s.csv.closed
    ensures res.0.headerLineIncluded == s.headerLineIncluded
    ensures res.1.Failure? <==> s.csv.closed && !s.headerLineRead
    ensures res.1.Failure? ==> res.0 == s
    ensures res.1.Success? ==> res.0.headerLineRead
    ensures res.1.Success? ==>
              res.1.value == (if s.headerLineIncluded then First(s.csv.records) else None)
    ensures s.headerLineRead ==> res.0 == s
    ensures res.0.Consumed() == s.Consumed() + (if s.headerLineRead then [] else res.0.HeaderPart())
  {
    if s.headerLineIncluded && !s.headerLineRead then
      var (q, h) := Next(s.csv);
      if h.Failure? then (s.(csv := q), h)
      else (s.(csv := q, headerLine := h.value, headerLineRead := true), Success(h.value))
    else
      (s, Success(s.headerLine))
  }

  /**
   * `read()`. Once the header has been read this is one read of the
   * underlying stream. Before that, the first record is stored as the header
   * and the record after it is returned. `None` comes back exactly when the
   * stream is exhausted, and a returned record is the stream's record at the
   * cursor, unchanged.
   */
  function ReadStep(s: ReaderState): (res: (ReaderState, Result<Option<Record>, IOException>))
    requires s.Valid()
    ensures res.0.Valid()
    ensures res.0.csv.records == s.csv.records && res.0.csv.closed == s.csv.closed
    ensures res.0.headerLineIncluded == s.headerLineIncluded
    ensures res.1.Failure? <==> s.csv.closed
    ensures res.1.Failure? ==> res.0 == s
    ensures res.1.Success? ==> res.0.headerLineRead
    ensures res.1 == Success(None) <==>
              !s.csv.closed && |s.csv.records| <= s.csv.pos + (if s.headerLineRead then 0 else 1)
    ensures res.1 == Success(None) ==> res.0.csv.pos == |s.csv.records|
    ensures res.1.Success? && res.1.value.Some? ==>
              1 <= res.0.csv.pos && res.1.value.value == s.csv.records[res.0.csv.pos - 1]
    ensures res.1.Success? && res.1.value.Some? && s.headerLineIncluded ==> 2 <= res.0.csv.pos
    ensures res.0.Consumed() ==
              s.Consumed() + (if s.headerLineRead then [] else res.0.HeaderPart()) + Delivered(res.1)
  {
    if s.headerLineRead then
      var (q, r) := Next(s.csv);
      (s.(csv := q), r)
    else
      var (q1, h) := Next(s.csv);
      if h.Failure? then (s.(csv := q1), h)
      else
        var s1 := s.(csv := q1, headerLine := h.value, headerLineRead := true);
        var (q2, r) := Next(q1);
        (s1.(csv := q2), r)
  }

  /** `close()`: closes the underlying reader; the header fields are untouched. */
  function CloseStep(s: ReaderState): (res: ReaderState)
    requires s.Valid()
    ensures res.Valid() && res.csv.closed
    ensures res.Consumed() == s.Consumed() && res.csv.records == s.csv.records
    ensures res.headerLineIncluded == s.headerLineIncluded
    ensures res.headerLineRead == s.headerLineRead && res.headerLine == s.headerLine
  {
    s.(csv := CloseQueue(s.csv))
  }

  /** A call a client makes on the reader. */
  datatype Call = GetHeaderLine | Read | Close

  /** What a call answered. */
  datatype Outcome =
    | HeaderReturned(header: Result<Option<Record>, IOException>)
    | RowReturned(row: Result<Option<Record>, IOException>)
    | CloseReturned

  function Step(s: ReaderState, c: Call): (res: (ReaderState, Outcome))
    requires s.Valid()
  {
    match c
    case GetHeaderLine =>
      var (t, h) := HeaderStep(s);
      (t, HeaderReturned(h))
    case Read =>
      var (t, r) := ReadStep(s);
      (t, RowReturned(r))
    case Close =>
      (CloseStep(s), CloseReturned)
  }

  /**
   * Any sequence of calls on a reader, with the answers in order. The reader
   * stays valid, its stream and header flag never change, the cursor only
   * moves forward, and once the header has been read it stays read.
   */
  function Run(s: ReaderState, calls: seq<Call>): (res: (ReaderState, seq<Outcome>))
    requires s.Valid()
    ensures res.0.Valid() && |res.1| == |calls|
    ensures res.0.csv.records == s.csv.records
    ensures res.0.headerLineIncluded == s.headerLineIncluded
    ensures s.headerLineRead ==> res.0.headerLineRead
    ensures s.csv.closed ==> res.0.csv.closed
    ensures s.csv.pos <= res.0.csv.pos
    decreases |calls|
  {
    if calls == [] then (s, [])
    else
      var (s1, o) := Step(s, calls[0]);
      var (t, os) := Run(s1, calls[1..]);
      (t, [o] + os)
  }

  /** The data rows handed out by `read()` in a sequence of answers. */
  function Rows(outs: seq<Outcome>): seq<Record>
  {
    if outs == [] then []
    else (if outs[0].RowReturned? then Delivered(outs[0].row) else []) + Rows(outs[1..])
  }

  /** One step moves the cursor over the newly stored header and the row returned, nothing else. */
  lemma StepConsumes(s: ReaderState, c: Call)
    requires s.Valid()
    ensures var (t, o) := Step(s, c);
            t.Consumed() == s.Consumed() + (if s.headerLineRead then [] else t.HeaderPart()) + Rows([o])
            && t.headerLineIncluded == s.headerLineIncluded && t.csv.records == s.csv.records
            && (s.headerLineRead ==> t.headerLineRead)
  {
    var (t, o) := Step(s, c);
    assert Rows([o]) == (if o.RowReturned? then Delivered(o.row) else []) + Rows([]);
  }

  /** `Rows` splits over a leading answer. */
  lemma RowsCons(o: Outcome, os: seq<Outcome>)
    ensures Rows([o] + os) == Rows([o]) + Rows(os)
  {
    assert ([o] + os)[1..] == os;
    assert Rows([o]) == (if o.RowReturned? then Delivered(o.row) else []) + Rows([]);
  }

  /** Once read, the kept header is the stream's first record, so it never changes. */
  lemma HeaderKept(s: ReaderState, t: ReaderState)
    requires s.Valid() && t.Valid() && s.headerLineRead && t.headerLineRead
    requires s.csv.records == t.csv.records && s.headerLineIncluded == t.headerLineIncluded
    ensures s.HeaderPart() == t.HeaderPart()
  {
  }

  /**
   * The cursor moves over exactly the header (when it is read during the
   * calls) followed by the rows `read()` returned, in order: no record is lost,
   * duplicated or altered.
   */
  lemma {:induction false} RunConsumesHeaderThenRows(s: ReaderState, calls: seq<Call>)
    requires s.Valid()
    ensures Run(s, calls).0.Consumed() ==
              s.Consumed() + (if s.headerLineRead then [] else Run(s, calls).0.HeaderPart()) + Rows(Run(s, calls).1)
    decreases |calls|
  {
    if calls != [] {
      var first := Step(s, calls[0]);
      var rest := Run(first.0, calls[1..]);
      assert Run(s, calls) == (rest.0, [first.1] + rest.1);
      StepConsumes(s, calls[0]);
      RunConsumesHeaderThenRows(first.0, calls[1..]);
      RowsCons(first.1, rest.1);
      if !s.headerLineRead && first.0.headerLineRead {
        HeaderKept(first.0, rest.0);
      }
    }
  }

  /**
   * Once any `read()` in a sequence of calls has answered null, the stream is
   * exhausted, and it stays so for the rest of the calls.
   */
  lemma {:induction false} RunEndsAtNull(s: ReaderState, calls: seq<Call>, k: nat)
    requires s.Valid()
    requires k < |calls|
    requires Run(s, calls).1[k] == RowReturned(Success(None))
    ensures Run(s, calls).0.csv.pos == |s.csv.records|
    decreases |calls|
  {
    var first := Step(s, calls[0]);
    var rest := Run(first.0, calls[1..]);
    assert Run(s, calls) == (rest.0, [first.1] + rest.1);
    if k == 0 {
      assert first.1 == RowReturned(Success(None));
      assert first.0.csv.pos == |s.csv.records|;
    } else {
      assert rest.1[k - 1] == Run(s, calls).1[k];
      RunEndsAtNull(first.0, calls[1..], k - 1);
    }
  }

  /**
   * A reader whose consumed records are its header followed by some rows:
   * rows come only after a kept header on a header-bearing stream, make up
   * the whole consumed prefix on a header-less one, and, once the cursor is
   * at the end, header and rows are the whole stream.
   */
  lemma HeaderPrecedesRows(t: ReaderState, rows: seq<Record>)
    requires t.Valid() && t.HeaderPart() + rows == t.Consumed()
    ensures t.headerLineIncluded && rows != [] ==> t.HeaderPart() == [t.csv.records[0]]
    ensures !t.headerLineIncluded ==> t.HeaderPart() == [] && rows == t.Consumed()
    ensures t.csv.pos == |t.csv.records| ==> t.HeaderPart() + rows == t.csv.records
  {
    if t.headerLineIncluded && rows != [] {
      assert |t.Consumed()| > 0;
    }
    if t.csv.pos == |t.csv.records| {
      assert t.Consumed() == t.csv.records;
    }
  }

  /** On a fresh reader, the records consumed by any calls are the kept header followed by the rows. */
  lemma {:induction false} FreshRunConsumesHeaderThenRows(records: seq<Record>, headerLineIncluded: bool, calls: seq<Call>)
    ensures var run := Run(Init(records, headerLineIncluded), calls);
            run.0.HeaderPart() + Rows(run.1) == run.0.Consumed()
  {
    var s := Init(records, headerLineIncluded);
    var run := Run(s, calls);
    RunConsumesHeaderThenRows(s, calls);
    if !headerLineIncluded {
      assert run.0.HeaderPart() == [];
    }
  }

  /**
   * Whatever calls a client makes on a fresh reader: the stored header (the
   * stream's first record, and only when the file has a header) followed by
   * the rows `read()` returned is a prefix of the stream; once any `read()`
   * has answered null, whatever calls follow, it is the whole stream. On a
   * header-bearing stream no row is returned before the header has been
   * taken out.
   */
  lemma StreamIsHeaderThenRows(records: seq<Record>, headerLineIncluded: bool, calls: seq<Call>)
    ensures var run := Run(Init(records, headerLineIncluded), calls);
            run.0.HeaderPart() + Rows(run.1) == records[..run.0.csv.pos]
            && (headerLineIncluded && Rows(run.1) != [] ==> run.0.HeaderPart() == [records[0]])
            && (!headerLineIncluded ==> run.0.HeaderPart() == [] && Rows(run.1) == records[..run.0.csv.pos])
            && (forall k :: 0 <= k < |run.1| && run.1[k] == RowReturned(Success(None)) ==>
                  run.0.HeaderPart() + Rows(run.1) == records)
  {
    var s := Init(records, headerLineIncluded);
    var run := Run(s, calls);
    FreshRunConsumesHeaderThenRows(records, headerLineIncluded, calls);
    HeaderPrecedesRows(run.0, Rows(run.1));
    forall k | 0 <= k < |run.1| && run.1[k] == RowReturned(Success(None))
      ensures run.0.HeaderPart() + Rows(run.1) == records
    {
      RunEndsAtNull(s, calls, k);
    }
  }

  /**
   * A header is read at most once: a second `getHeaderLine()` consumes nothing
   * and answers the same, also when both fail on a closed reader.
   */
  lemma HeaderLineIdempotent(s: ReaderState)
    requires s.Valid()
    ensures HeaderStep(HeaderStep(s).0) == HeaderStep(s)
  {
  }

  /**
   * After a first `read()` has skipped the header, `getHeaderLine()` returns
   * that stored record without moving the cursor.
   */
  lemma HeaderAfterRead(s: ReaderState)
    requires s.Valid() && s.headerLineIncluded && !s.headerLineRead
    requires ReadStep(s).1.Success?
    ensures var t := ReadStep(s).0;
            HeaderStep(t) == (t, Success(First(s.csv.records)))
  {
  }

  /** A file without a header: `getHeaderLine()` answers null and consumes nothing, however often. */
  lemma NoHeaderLine(records: seq<Record>, calls: seq<Call>)
    ensures var (t, _) := Run(Init(records, false), calls);
            HeaderStep(t) == (t, Success(None))
  {
  }

  /**
   * `SuperCsvFileReader`: a `CsvListReader` plus the header bookkeeping. Each
   * method performs exactly the corresponding step on `Model()`.
   */
  class SuperCsvFileReader {
    const csvListReader: CsvListReader
    const headerLineIncluded: bool
    var headerLine: Option<Record>
    var headerLineRead: bool

    ghost function Model(): ReaderState
      reads this, csvListReader
    {
      ReaderState(csvListReader.Model(), headerLineIncluded, headerLineRead, headerLine)
    }

    ghost predicate Valid()
      reads this, csvListReader
    {
      Model().Valid()
    }

    /**
     * The stream `input` is the record sequence the tokeniser would produce
     * with these settings; empty lines are skipped by the tokeniser.
     */
    constructor (input: seq<Record>, quoteChar: char, delimiterChar: char, endOfLineSymbols: string,
                 headerLineIncluded: bool)
      ensures Valid() && fresh(csvListReader)
      ensures Model() == Init(input, headerLineIncluded)
      ensures csvListReader.preference == CsvPreference(quoteChar, delimiterChar, endOfLineSymbols, true)
    {
      var preference := CsvPreference(quoteChar, delimiterChar, endOfLineSymbols, true);
      csvListReader := new CsvListReader(input, preference);
      this.headerLineIncluded := headerLineIncluded;
      headerLine := None;
      headerLineRead := !headerLineIncluded;
    }

    method GetHeaderLine() returns (r: Result<Option<Record>, IOException>)
      requires Valid()
      modifies this, csvListReader
      ensures Valid()
      ensures (Model(), r) == HeaderStep(old(Model()))
      ensures r.Success? ==> r.value == (if headerLineIncluded then First(csvListReader.records) else None)
    {
      if headerLineIncluded && !headerLineRead {
        var h := csvListReader.Read();
        if h.Failure? {
          return h;
        }
        headerLine := h.value;
        headerLineRead := true;
      }
      r := Success(headerLine);
    }

    method Read() returns (r: Result<Option<Record>, IOException>)
      requires Valid()
      modifies this, csvListReader
      ensures Valid()
      ensures (Model(), r) == ReadStep(old(Model()))
    {
      if headerLineRead {
        r := csvListReader.Read();
        return;
      }
      var h := csvListReader.Read();
      if h.Failure? {
        return h;
      }
      headerLine := h.value;
      headerLineRead := true;
      r := csvListReader.Read();
    }

    method Close()
      requires Valid()
      modifies this, csvListReader
      ensures Valid()
      ensures Model() == CloseStep(old(Model()))
    {
      csvListReader.Close();
    }
  }

  /**
   * A usage example, not part of the reader: what a client can conclude from
   * the method contracts alone on a header-bearing stream of three records.
   */
  method ReadThreeRecords(a: Record, b: Record, c: Record)
  {
    var reader := new SuperCsvFileReader([a, b, c], '"', ',', "\n", true);
    var r1 := reader.Read();
    assert r1 == Success(Some(b));
    var h := reader.GetHeaderLine();
    assert h == Success(Some(a));
    var r2 := reader.Read();
    assert r2 == Success(Some(c));
    var r3 := reader.Read();
    assert r3 == Success(None);
    reader.Close();
    var r4 := reader.Read();
    assert r4 == Failure(StreamClosed);
  }
}
