# ORC user-file parser: a Dafny model

This project models the part of the serverless ORC parser that does real work on
data:

- `OrcParserFn.parseOrc` reads an ORC file of users. The file has eight columns:
  a long id, then seven text columns. The method walks every batch the record
  reader yields and every live row of each batch. For each row it builds a
  `User`, reading each field from its column by position. It parses the birth
  date with `MM/dd/yyyy` and keeps the row with no date when parsing fails.
  Any other exception raised inside the `try` (OrcParserFn.java:152-185) ends
  the read, and the users collected so far are returned.
- `handleRequest` derives the local file name from the object key
  (`orcKey.substring(orcKey.lastIndexOf('/') + 1)`).
- `User` has three serialisers: `toString`, `toCsvRow` and
  `generateCsvHeaderString`.

Layout:

- `wrappers.dfy` (`Wrappers`): `Option`. It stands for a Java reference that
  may be null, or for a computation that may throw.
- `strings.dfy` (`Strings`): `String.lastIndexOf`, comma join and split, and the
  the `long` type (`int64`) with its decimal text and read-back.
- `users.dfy` (`Users`): the `User` record and its serialisers, proved against
  reference layouts. The CSV layout is the field list joined by commas. The
  `toString` layout is fixed glue around the values.
- `orc_batch.dfy` (`OrcBatch`): the column vectors and the reusable
  `VectorizedRowBatch`, as a class refilled in place. It also has the
  `RecordReader` class, whose `nextBatch` overwrites that batch.
- `orc_parser.dfy` (`OrcParser`): decoding one row, the `parseOrc` loop as a
  method, the pure function `Parsed` that specifies it, the properties of its
  result, and the file name taken from the key.

The date parser (`SimpleDateFormat("MM/dd/yyyy").parse`), the date formatter
and the charset decoding in `new String(byte[], int, int)` are function
parameters. `parseDate: string -> Option<Date>` returns `None` where Java throws
`ParseException`.

Three behaviours of the code are worth stating plainly, because they are not
what a reader might expect:

- A bad date is handled by the inner `catch (ParseException)` at
  OrcParserFn.java:177. The `catch (Exception)` at OrcParserFn.java:186
  swallows every other failure raised in 152-185: a null buffer, a slot range
  outside its buffer, or an `IOException` from `nextBatch`. Such a failure ends
  the read, and `parseOrc` returns the users read so far. `Parsed` is therefore the
  longest run of rows, from the first, that decode without an exception.
- A schema without a long column followed by seven byte-slice columns raises no
  error. The casts at OrcParserFn.java:156-163 throw inside the same `try`, so
  `parseOrc` returns an empty list. The model returns `[]` whenever the schema
  does not bind (`!Binds(kinds)`).
- A default `SimpleDateFormat` is lenient: `13/40/2020` parses, rolling over
  into a later date. The model keeps the parser abstract and claims nothing
  about which strings fail.

## Model

| member | source | states |
|---|---|---|
| `Strings.LastIndexOf` | src/main/java/com/proserv/orcParser/OrcParserFn.java:114 | the result is -1 or an index holding the character, and no later index holds it |
| `Strings.LongText` | src/main/java/com/proserv/orcParser/models/User.java:43 | the decimal text of a long is non-empty, has no ',' or '/', and starts with '-' exactly for negative values |
| `Strings.LongTextRoundTrip` | src/main/java/com/proserv/orcParser/models/User.java:60 | reading back the decimal text of the id gives the id |
| `Strings.Split` | src/main/java/com/proserv/orcParser/models/User.java:60-67 | splitting on a separator gives at least one piece, and no piece contains the separator |
| `Strings.SplitJoin` | src/main/java/com/proserv/orcParser/models/User.java:60-67 | splitting undoes joining when no piece contains the separator |
| `Strings.JoinSplit` | src/main/java/com/proserv/orcParser/models/User.java:60-67 | joining the pieces of a split gives back the original text |
| `Users.CsvHeader` | src/main/java/com/proserv/orcParser/models/User.java:53-55 | no contract; characterised by `CsvHeaderColumns` |
| `Users.BirthDateText` | src/main/java/com/proserv/orcParser/models/User.java:42 | no contract; the formatted date or "" when absent, characterised by `CsvRowAbsentDate` and `ToStringAbsentDate` |
| `Users.ToCsvRow` | src/main/java/com/proserv/orcParser/models/User.java:57-68 | no contract; characterised by `CsvRowFields`, `CsvRowSplits` and `CsvRowAbsentDate` |
| `Users.ToString` | src/main/java/com/proserv/orcParser/models/User.java:40-51 | no contract; characterised by `ToStringLayout`, `ToStringEnds` and `ToStringAbsentDate` |
| `Users.CsvHeaderColumns` | src/main/java/com/proserv/orcParser/models/User.java:53-55 | the header is exactly the eight names id, firstName, lastName, email, gender, country, birthDate, title joined by ',', and splitting it on ',' gives them back |
| `Users.CsvRowFields` | src/main/java/com/proserv/orcParser/models/User.java:57-68 | a CSV row is the user's eight values, in header order, joined by single commas |
| `Users.CsvRowSplits` | src/main/java/com/proserv/orcParser/models/User.java:57-68 | when no text field contains ',' and the formatted date has no ',', splitting the row on ',' gives exactly 8 pieces: the id's decimal text (which reads back as the id), the six text fields and the date text, in order |
| `Users.CsvRowAbsentDate` | src/main/java/com/proserv/orcParser/models/User.java:58-67 | an absent birth date prints as nothing between its commas; a present date's text sits in exactly that slot and the rest of the row is unchanged |
| `Users.ToStringLayout` | src/main/java/com/proserv/orcParser/models/User.java:40-51 | toString is the fixed opening, the field labels in the order id, firstName, lastName, email, gender, country, birthDate, title, and the closing, with the values in between |
| `Users.ToStringEnds` | src/main/java/com/proserv/orcParser/models/User.java:43-50 | toString starts with "user: { id: " followed by the id's text and ends with "' }" |
| `Users.ToStringAbsentDate` | src/main/java/com/proserv/orcParser/models/User.java:41-50 | an absent birth date prints as '' in toString; a present date's text sits in exactly that slot and the rest is unchanged |
| `OrcBatch.EmptyColumn` | src/main/java/com/proserv/orcParser/OrcParserFn.java:149 | a freshly allocated vector has the schema column's kind and room for the batch's capacity |
| `OrcBatch.Batch.constructor` | src/main/java/com/proserv/orcParser/OrcParserFn.java:149 | createRowBatch allocates one vector per schema column, with no live rows |
| `OrcBatch.RecordReader.constructor` | src/main/java/com/proserv/orcParser/OrcParserFn.java:153-154 | the reader opened for the schema holds the batches it will yield, each fitting the schema and the default capacity |
| `OrcBatch.RecordReader.NextBatch` | src/main/java/com/proserv/orcParser/OrcParserFn.java:166 | nextBatch refills the batch in place with the next pending batch and answers true; at the end of the file it answers false with live size 0, again on every later call; a faulty reader throws there instead and leaves the batch as it was |
| `OrcParser.Binds` | src/main/java/com/proserv/orcParser/OrcParserFn.java:156-163 | no contract; the casts succeed exactly for a schema of at least eight columns whose first is a long column and next seven are byte-slice columns; characterised by `FitsBound` |
| `OrcParser.FieldBytes` | src/main/java/com/proserv/orcParser/OrcParserFn.java:170-176 | no contract; `new String(vector[row], start[row], length[row])` as the slot's bytes, or None where it throws; characterised by `DecodeRowBinding` |
| `OrcParser.DecodeRow` | src/main/java/com/proserv/orcParser/OrcParserFn.java:168-180 | no contract; characterised by `DecodeRowBinding` and `DateFailureKeepsRow` |
| `OrcParser.SliceRows` | src/main/java/com/proserv/orcParser/OrcParserFn.java:167-183 | no contract; one outcome per live row, characterised by `RowsAt` and `LiveSlotsOnly` |
| `OrcParser.Rows` | src/main/java/com/proserv/orcParser/OrcParserFn.java:166-184 | there is one row outcome per live row of every batch: its length is the sum of the live sizes |
| `OrcParser.TakeOk` | src/main/java/com/proserv/orcParser/OrcParserFn.java:152-188 | the run kept by the catch-all never holds more users than there are rows; characterised by `TakeOkSpec` |
| `OrcParser.FitsBound` | src/main/java/com/proserv/orcParser/OrcParserFn.java:156-163 | with a schema of a long column followed by seven byte-slice columns, every batch the reader fills lets the vector casts succeed |
| `OrcParser.DecodeRowBinding` | src/main/java/com/proserv/orcParser/OrcParserFn.java:168-180 | a row decodes exactly when every slot it reads is in bounds; id then comes from column 0, the text fields from the bytes vector[row][start[row] .. start[row]+length[row]) of columns 1-5 and 7, and birthDate from parsing the text of column 6 |
| `OrcParser.DateFailureKeepsRow` | src/main/java/com/proserv/orcParser/OrcParserFn.java:175-182 | a date that fails to parse leaves birthDate absent; the row is still kept and its other seven fields are the same as with any other parser |
| `OrcParser.AppendBatchRows` | src/main/java/com/proserv/orcParser/OrcParserFn.java:167-183 | the row loop appends, in row order, one user per live row of the batch up to the first row that throws, and reports whether it got through all of them |
| `OrcParser.ParseOrc` | src/main/java/com/proserv/orcParser/OrcParserFn.java:137-191 | parseOrc over a reader returns exactly `Parsed` of the reader's schema and the batches it yields, whether the reader then ends or throws |
| `OrcParser.Parsed` | src/main/java/com/proserv/orcParser/OrcParserFn.java:152-190 | a schema whose vectors do not bind gives an empty result; the result never holds more users than there are live rows |
| `OrcParser.ParsedLeadingRun` | src/main/java/com/proserv/orcParser/OrcParserFn.java:152-188 | with a binding schema, each user returned is the row outcome at its own position (batch order, then row order), and the row right after the result, if any, threw |
| `OrcParser.TakeOkSpec` | src/main/java/com/proserv/orcParser/OrcParserFn.java:182-188 | each user kept is the row at its own position, and the row just after the kept run, if any, threw |
| `OrcParser.RowsAt` | src/main/java/com/proserv/orcParser/OrcParserFn.java:166-167 | row `row` of batch `b` is the k-th row read, where k is the number of live rows in the earlier batches plus `row` |
| `OrcParser.Position` | src/main/java/com/proserv/orcParser/OrcParserFn.java:166-167 | every position below the number of live rows is row `row` of some batch `b`, at the number of live rows in the batches before `b` plus `row` |
| `OrcParser.ParsedUser` | src/main/java/com/proserv/orcParser/OrcParserFn.java:166-182 | the k-th user returned is the one decoded from the live row at position k |
| `OrcParser.ParsedOrder` | src/main/java/com/proserv/orcParser/OrcParserFn.java:166-182 | the k-th user returned is the one decoded from the k-th live row consumed |
| `OrcParser.ParsedStopsAtFault` | src/main/java/com/proserv/orcParser/OrcParserFn.java:166-188 | a result shorter than the number of live rows stops at a row that does not read cleanly |
| `OrcParser.ParsedCount` | src/main/java/com/proserv/orcParser/OrcParserFn.java:166-183 | when no row throws, the number of users equals the sum of the live sizes of the batches |
| `OrcParser.ParsedPrefix` | src/main/java/com/proserv/orcParser/OrcParserFn.java:152-190 | a read cut short after some batches returns a prefix of what a longer read returns |
| `OrcParser.LiveSlotsOnly` | src/main/java/com/proserv/orcParser/OrcParserFn.java:167 | only live slots are read: two batches that agree on their live slots decode to the same rows, whatever lies beyond the live size |
| `OrcParser.FileName` | src/main/java/com/proserv/orcParser/OrcParserFn.java:114 | the file name has no '/', is a suffix of the key preceded by a '/' when shorter than the key, and is the whole key when the key has no '/' |
| `OrcParser.FileNameUnique` | src/main/java/com/proserv/orcParser/OrcParserFn.java:114 | any split of the key into a part that is empty or ends in '/' followed by a '/'-free rest has that rest as the file name |
| `OrcParser.FileNameIdempotent` | src/main/java/com/proserv/orcParser/OrcParserFn.java:114 | taking the file name of a file name changes nothing |
| `OrcParser.LocalPath` | src/main/java/com/proserv/orcParser/OrcParserFn.java:115 | the pathname string "/tmp/" + name passed to `new File` has the same file name as the key |

`ToCsvRow`, `ToString` and `CsvHeader` are Dafny functions, so they cannot
change the `User` or anything else. This covers the promise that the
serialisers only read fields and return a fresh string.

## Left out

- `handleRequest` plumbing is not modelled: the S3 `TransferManager` download,
  `waitForCompletion`, `shutdownNow` and `System.exit`. These are network and
  process I/O.
- The SQS message parsing into `SqsMessage` and the local-testing switch
  `IS_LOCAL_TESTING` are not modelled. The object key is a parameter of
  `FileName`.
- The DynamoDB mapper, its CLOBBER configuration and `batchSave` are foreign
  persistence calls and are not modelled.
- Opening the file (`OrcFile.createReader`, the optional `FileSystem`) is not
  modelled, beyond the exceptions noted under ParseOrc. The reader is given as the schema's column kinds and the sequence
  of batches it yields.
- ParseOrc: covers OrcParserFn.java:152-188 only. An exception from opening the
  file, `reader.rows()` or `createRowBatch` (lines 145-149), or from
  `records.close()` (line 189), is outside the `try`. It propagates out of
  `parseOrc`, and every user read is lost. That case is not modelled.
- The second reader `records` (opened at line 146) is never read from, so it
  is not modelled; only the exception its `close()` may raise would matter (see
  the line above). Closing `rowIterator` at line 185 is not modelled either; an
  exception there is caught and leaves the result unchanged.
- LocalPath: `java.io.File` normalisation of the pathname is not modelled. For
  a key ending in '/', the file name is "" and the string is "/tmp/", but
  `new File` drops the trailing '/'. The download target is then "/tmp", whose
  file name is "tmp".
- An exception thrown by `reader.rows(...)` at line 153 is not modelled. It
  would be caught and give an empty list, like a schema that does not bind.
- `RecordReader.NextBatch`: an `IOException` is modelled only after the last
  pending batch, and it leaves the batch unchanged. Because the batch list is
  arbitrary, this covers an exception after any number of batches. A batch
  half-refilled when the exception hit is not modelled; it is never read anyway.
- `SimpleDateFormat` parse and format are function parameters (`parseDate`,
  `format`). Their leniency, time zone and exact accepted strings are not
  modelled. For that reason, the claim that formatting a parsed date gives back
  its text is not stated.
- Charset decoding in `new String(byte[], int, int)` is a function parameter
  (`decode`). A Java `byte` is modelled as 0..255, since bytes are only copied.
- Logging is not modelled: `LOG.info`, the per-row `LOG.info(user.toString())`,
  the `LOG.warn` on a bad date, and `printStackTrace`.
- Column vectors of other ORC types are one opaque `OtherColumn`. A schema that
  uses one where a long or byte-slice vector is expected fails the casts.
- `User` fields that are Java `null` print as "null" in the serialisers. This is
  not modelled: every user `parseOrc` builds has non-null text fields, and the
  model's strings cannot be null.
- The Lombok accessors, `equals` and `hashCode` of `User` are not modelled. The
  record is a Dafny datatype built in one step, which is what the setter calls
  at lines 168-180 amount to.
- `main` is not modelled.
