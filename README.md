# SuperCsvFileReader: header bookkeeping over a record stream

This project models `SuperCsvFileReader`, the tabular data file reader of
gbif-common that is backed by Super CSV. The reader wraps a `CsvListReader`,
which turns a character stream into records (lists of field strings), and adds
one thing of its own: the management of an optional header record.

- When the file is declared header-less, the header counts as already read and
  `getHeaderLine()` answers `null` for ever.
- When the file has a header, it is the first record of the stream. The first
  `getHeaderLine()` consumes it and keeps it. If `read()` comes first, it consumes
  the header, keeps it, and returns the record after it. Either way, later
  `getHeaderLine()` calls return the kept record and consume nothing.
- `read()` otherwise hands out the next record unchanged, whatever its field
  count, and `null` at the end of the stream.

`CsvListReader` is modelled as a queue of already-tokenised records: a
`seq<Record>` with a cursor and a `closed` flag (module `SuperCsv`, datatype
`Queue`, function `Next`, class `CsvListReader`). End of stream (`null` in
Java) is `Option.None`. A thrown `IOException` is `Result.Failure`. The only
exception modelled is a read after `close()`.

The reader's behaviour is stated on values in module `Tabular`:
- `ReaderState` holds the class's fields.
- `HeaderStep`, `ReadStep` and `CloseStep` give one step for each public method.
- `Run` executes any sequence of calls.

The class `Tabular.SuperCsvFileReader` has the Java class's fields. Each of its
methods promises to perform exactly its step on `Model()`. The lemmas show:
- The header is consumed at most once.
- The header is never returned as a data row.
- The kept header followed by the rows `read()` returned is exactly the part of
  the stream consumed so far. Once any `read()` has answered `null`, it is the
  whole stream, whatever calls follow.

The method `Tabular.ReadThreeRecords` is a usage example, not part of the
reader: it shows what a client concludes from the method contracts alone.

The two `Objects.requireNonNull` checks in the constructor hold by typing:
Dafny's `seq` and `string` values cannot be null, so no caller can pass one.

## Model

| member | source | states |
|---|---|---|
| `SuperCsv.Next` | src/main/java/org/gbif/utils/file/tabular/SuperCsvFileReader.java:57-65 | one read of the list reader: throws exactly when closed; answers null exactly when the cursor is at the end; otherwise the consumed prefix grows by exactly the returned record, and nothing else changes |
| `SuperCsv.CloseQueue` | src/main/java/org/gbif/utils/file/tabular/SuperCsvFileReader.java:73-76 | closing keeps the stream and the records already consumed, and marks the reader closed |
| `SuperCsv.CsvListReader.constructor` | src/main/java/org/gbif/utils/file/tabular/SuperCsvFileReader.java:41-43 | a fresh list reader is open, at the start of its stream, and configured with the given quote, delimiter and end-of-line symbols, with empty lines ignored |
| `SuperCsv.CsvListReader.Read` | src/main/java/org/gbif/utils/file/tabular/SuperCsvFileReader.java:65 | the method performs exactly the `Next` step on the reader's state |
| `SuperCsv.CsvListReader.Close` | src/main/java/org/gbif/utils/file/tabular/SuperCsvFileReader.java:75 | the method performs exactly the `CloseQueue` step on the reader's state |
| `Tabular.Init` | src/main/java/org/gbif/utils/file/tabular/SuperCsvFileReader.java:44-45 | after construction the reader is valid and nothing has been consumed; the header counts as read exactly when the file is declared header-less |
| `Tabular.HeaderStep` | src/main/java/org/gbif/utils/file/tabular/SuperCsvFileReader.java:49-55 | `getHeaderLine()` answers the stream's first record when the file has a header, and null otherwise; it consumes only that record, and only on the first call; once the header is read, the state is unchanged; a failing underlying read updates no field |
| `Tabular.ReadStep` | src/main/java/org/gbif/utils/file/tabular/SuperCsvFileReader.java:57-70 | `read()` returns the stream's record at the cursor, unchanged; on a header-bearing stream it is never the first record; the cursor moves over the newly kept header, if any, then the returned row; null comes back exactly when no record remains after the header; it throws exactly when the reader is closed, and then changes nothing |
| `Tabular.CloseStep` | src/main/java/org/gbif/utils/file/tabular/SuperCsvFileReader.java:72-77 | `close()` closes the underlying reader and leaves the consumed records and the header fields as they were |
| `Tabular.Run` | src/main/java/org/gbif/utils/file/tabular/SuperCsvFileReader.java:20-23 | across any sequence of calls, the reader stays valid, its stream and header flag never change, the cursor only moves forward, and `headerLineRead` and `closed`, once true, stay true |
| `Tabular.StepConsumes` | src/main/java/org/gbif/utils/file/tabular/SuperCsvFileReader.java:49-70 | a single call consumes the newly kept header, if any, followed by the row it returned, and nothing more |
| `Tabular.RunConsumesHeaderThenRows` | src/main/java/org/gbif/utils/file/tabular/SuperCsvFileReader.java:49-70 | over any sequence of calls, the records consumed are exactly the newly kept header, if any, followed by the rows `read()` returned, in order |
| `Tabular.RunEndsAtNull` | src/main/java/org/gbif/utils/file/tabular/SuperCsvFileReader.java:60-65 | once any `read()` in a sequence of calls has answered null, the cursor is at the end of the stream after all the calls |
| `Tabular.HeaderPrecedesRows` | src/main/java/org/gbif/utils/file/tabular/SuperCsvFileReader.java:63-69 | if the consumed records are the kept header followed by some rows, then on a header-bearing stream a row appears only after the first record was kept as header; on a header-less stream the rows are the whole consumed prefix; at the end of the stream, header plus rows is the whole stream |
| `Tabular.FreshRunConsumesHeaderThenRows` | src/main/java/org/gbif/utils/file/tabular/SuperCsvFileReader.java:44-70 | on a newly constructed reader, any calls consume exactly the kept header, if any, followed by the rows `read()` returned |
| `Tabular.StreamIsHeaderThenRows` | src/main/java/org/gbif/utils/file/tabular/SuperCsvFileReader.java:44-70 | for a fresh reader and any calls, the header followed by the rows equals the consumed prefix of the stream; a header-bearing stream yields a row only after its first record was kept as header; a header-less one has no header and its rows are the consumed prefix itself; once any `read()` has answered null, header plus rows is the whole stream, whatever calls follow |
| `Tabular.HeaderLineIdempotent` | src/main/java/org/gbif/utils/file/tabular/SuperCsvFileReader.java:50-54 | a second `getHeaderLine()` consumes nothing and answers what the first one did, including when both fail on a closed reader |
| `Tabular.HeaderAfterRead` | src/main/java/org/gbif/utils/file/tabular/SuperCsvFileReader.java:50-68 | after a first `read()` has skipped the header, `getHeaderLine()` returns the stream's first record and consumes nothing |
| `Tabular.NoHeaderLine` | src/main/java/org/gbif/utils/file/tabular/SuperCsvFileReader.java:44-55 | on a file declared header-less, `getHeaderLine()` answers null and consumes nothing, after any calls |
| `Tabular.SuperCsvFileReader.constructor` | src/main/java/org/gbif/utils/file/tabular/SuperCsvFileReader.java:35-46 | a new reader is in the state `Init(input, headerLineIncluded)`, over a fresh list reader configured with the given quote, delimiter and end-of-line symbols, with empty lines ignored |
| `Tabular.SuperCsvFileReader.GetHeaderLine` | src/main/java/org/gbif/utils/file/tabular/SuperCsvFileReader.java:49-55 | the method performs exactly `HeaderStep` on the reader's fields and the list reader's state; when it succeeds, it answers the stream's first record when the file has a header, and null otherwise |
| `Tabular.SuperCsvFileReader.Read` | src/main/java/org/gbif/utils/file/tabular/SuperCsvFileReader.java:63-70 | the method performs exactly `ReadStep` on the reader's fields and the list reader's state |
| `Tabular.SuperCsvFileReader.Close` | src/main/java/org/gbif/utils/file/tabular/SuperCsvFileReader.java:73-77 | the method performs exactly `CloseStep` on the reader's fields and the list reader's state |

## Left out

- CSV tokenising by Super CSV (quote, delimiter and end-of-line handling, skipping empty lines). It is a foreign library, so the constructor takes the records the tokeniser would produce. Parse errors such as an unterminated quote are therefore not modelled.
- The argument checks of `CsvPreference.Builder` (line 41), such as its refusal of a quote character equal to the delimiter. The builder belongs to the same foreign library, so the constructor accepts any quote and delimiter characters.
- Charset decoding by `InputStreamReader`. The `charset` constructor parameter is dropped because decoding happens before the records exist.
- I/O failures of the underlying stream other than reading after `close()`. They are I/O, and the model has no source for them.
- `close()` releasing the operating-system stream. Only the `closed` flag is modelled.
- The external sort engine, the line comparator, the normalizer, and the string and file helpers. They are separate classes (`FileUtils`, `LineComparator`, `TabularFileNormalizer`, `StringUtils`, `ResourcesUtil`) that `SuperCsvFileReader` does not use, and this project does not model them.
