/**
 * The part of Super CSV that the file reader relies on, seen from outside:
 * a `CsvListReader` hands out already-tokenised records one at a time and
 * answers `null` once the stream is exhausted. The tokeniser itself (quotes,
 * delimiters, end-of-line symbols, empty-line skipping, charset decoding) is
 * not modelled: the records it would produce are given up front.
 */
module SuperCsv {
  import opened Wrappers

  /** One parsed line: its fields, in order, however many there are. */
  type Record = seq<string>

  /** The only failure modelled: reading from a reader that was closed. */
  datatype IOException = StreamClosed

  /** What the tokeniser is configured with (`CsvPreference.Builder`). */
  datatype CsvPreference = CsvPreference(
    quoteChar: char,
    delimiterChar: char,
    endOfLineSymbols: string,
    ignoreEmptyLines: bool)

  /** The abstract state of a `CsvListReader`: the record stream and a cursor. */
  datatype Queue = Queue(records: seq<Record>, pos: nat, closed: bool) {

    ghost predicate Valid() {
      pos <= |records|
    }

    /** The records handed out so far, in order. */
    function Consumed(): seq<Record>
      requires Valid()
    {
      records[..pos]
    }
  }

  /** The records a successful read hands out: the record, or nothing at end of stream. */
  function Delivered(r: Result<Option<Record>, IOException>): seq<Record>
  {
    if r.Success? && r.value.Some? then [r.value.value] else []
  }

  /**
   * `CsvListReader.read()`: the next record, `None` at end of stream, or an
   * exception once the reader has been closed.
   */
  function Next(q: Queue): (res: (Queue, Result<Option<Record>, IOException>))
    requires q.Valid()
    ensures res.0.Valid() && res.0.records == q.records && res.0.closed == q.closed
    ensures res.1.Failure? <==> q.closed
    ensures res.1 == Success(None) <==> !q.closed && q.pos == |q.records|
    ensures res.0.Consumed() == q.Consumed() + Delivered(res.1)
    ensures Delivered(res.1) == [] ==> res.0 == q
  {
    if q.closed then (q, Failure(StreamClosed))
    else if q.pos < |q.records| then (q.(pos := q.pos + 1), Success(Some(q.records[q.pos])))
    else (q, Success(None))
  }

  /** `CsvListReader.close()`: releases the stream; the cursor stays where it is. */
  function CloseQueue(q: Queue): (q': Queue)
    requires q.Valid()
    ensures q'.Valid() && q'.closed
    ensures q'.Consumed() == q.Consumed() && q'.records == q.records
  {
    q.(closed := true)
  }

  /** A Super CSV list reader over a stream of already-tokenised records. */
  class CsvListReader {
    const preference: CsvPreference
    const records: seq<Record>
    var pos: nat
    var closed: bool

    ghost function Model(): Queue
      reads this
    {
      Queue(records, pos, closed)
    }

    ghost predicate Valid()
      reads this
    {
      Model().Valid()
    }

    constructor (records: seq<Record>, preference: CsvPreference)
      ensures Valid()
      ensures Model() == Queue(records, 0, false) && this.preference == preference
    {
      this.preference := preference;
      this.records := records;
      pos := 0;
      closed := false;
    }

    method Read() returns (r: Result<Option<Record>, IOException>)
      requires Valid()
      modifies this
      ensures Valid()
      ensures (Model(), r) == Next(old(Model()))
    {
      if closed {
        r := Failure(StreamClosed);
      } else if pos < |records| {
        r := Success(Some(records[pos]));
        pos := pos + 1;
      } else {
        r := Success(None);
      }
    }

    method Close()
      requires Valid()
      modifies this
      ensures Valid()
      ensures Model() == CloseQueue(old(Model()))
    {
      closed := true;
    }
  }
}
