/**
 * OrcParserFn: the batch/row decode loop of parseOrc, the pure specification
 * it is proved against, and the local file name derived from an object key.
 */
module OrcParser {
  import opened Wrappers
  import opened Strings
  import opened Users
  import opened OrcBatch

  // ---------------------------------------------------------------------------
  // Column binding: the User field each schema position is read into.

  const IdCol: nat := 0
  const FirstNameCol: nat := 1
  const LastNameCol: nat := 2
  const EmailAddressCol: nat := 3
  const GenderCol: nat := 4
  const CountryCol: nat := 5
  const BirthDateCol: nat := 6
  const TitleCol: nat := 7

  /**
   * The casts that bind the vectors succeed: there are at least eight columns,
   * the first is a long vector and the next seven are byte-slice vectors.
   */
  predicate Binds(kinds: seq<ColumnKind>)
  {
    && |kinds| > TitleCol
    && kinds[IdCol] == LongKind
    && forall i | FirstNameCol <= i <= TitleCol :: kinds[i] == BytesKind
  }

  /** The vectors of a batch whose schema binds. */
  predicate Bound(cols: seq<Column>)
  {
    && |cols| > TitleCol
    && cols[IdCol].LongColumn?
    && forall i | FirstNameCol <= i <= TitleCol :: cols[i].BytesColumn?
  }

  lemma FitsBound(s: Slice, kinds: seq<ColumnKind>, capacity: nat)
    requires Fits(s, kinds, capacity) && Binds(kinds)
    ensures Bound(s.cols)
  {
    assert KindOf(s.cols[IdCol]) == LongKind;
    forall i | FirstNameCol <= i <= TitleCol ensures s.cols[i].BytesColumn? {
      assert KindOf(s.cols[i]) == BytesKind;
    }
  }

  // ---------------------------------------------------------------------------
  // Decoding one row.

  /**
   * The slot of a byte-slice vector names a range inside a present buffer:
   * the row is inside the slot arrays, its buffer reference is not null, and
   * start and length are non-negative with start + length within the buffer.
   */
  predicate SlotInBounds(c: Column, row: int)
    requires c.BytesColumn?
  {
    && 0 <= row < |c.vector|
    && row < |c.start|
    && row < |c.length|
    && c.vector[row].Some?
    && 0 <= c.start[row]
    && 0 <= c.length[row]
    && c.start[row] + c.length[row] <= |c.vector[row].value|
  }

  /** The bytes vector[row][start[row] .. start[row] + length[row]). */
  function SlotBytes(c: Column, row: int): seq<byte>
    requires c.BytesColumn? && SlotInBounds(c, row)
  {
    c.vector[row].value[c.start[row]..c.start[row] + c.length[row]]
  }

  /**
   * new String(vector[row], start[row], length[row]) on a byte-slice vector,
   * as its bytes: None where Java throws (row outside the slot arrays, a
   * null buffer, a negative start or length, or a range past the buffer).
   */
  function FieldBytes(c: Column, row: int): Option<seq<byte>>
    requires c.BytesColumn?
  {
    if SlotInBounds(c, row) then Some(SlotBytes(c, row)) else None
  }

  /** Reading row throws nothing: the id slot exists and every text slot is in bounds. */
  ghost predicate RowSound(s: Slice, row: int)
    requires Bound(s.cols)
  {
    && 0 <= row < |s.cols[IdCol].values|
    && forall i | FirstNameCol <= i <= TitleCol :: SlotInBounds(s.cols[i], row)
  }

  /**
   * The body of the row loop: a User from slot row of the bound vectors, or
   * None where an exception escapes the row. The date text goes through
   * parseDate (SimpleDateFormat("MM/dd/yyyy").parse); a ParseException
   * (None) leaves birthDate unset and the row is kept.
   */
  function DecodeRow(s: Slice, row: int, decode: seq<byte> -> string,
                     parseDate: string -> Option<Date>): Option<User>
    requires Bound(s.cols)
  {
    if !(0 <= row < |s.cols[IdCol].values|) then None
    else
      var id := s.cols[IdCol].values[row];
      var firstName :- FieldBytes(s.cols[FirstNameCol], row);
      var lastName :- FieldBytes(s.cols[LastNameCol], row);
      var emailAddress :- FieldBytes(s.cols[EmailAddressCol], row);
      var gender :- FieldBytes(s.cols[GenderCol], row);
      var country :- FieldBytes(s.cols[CountryCol], row);
      var birthDate :- FieldBytes(s.cols[BirthDateCol], row);
      var title :- FieldBytes(s.cols[TitleCol], row);
      Some(User(id, decode(firstName), decode(lastName), decode(emailAddress), decode(gender),
                decode(country), parseDate(decode(birthDate)), decode(title)))
  }

  /**
   * A row is kept exactly when reading it throws nothing, and then each field
   * comes from its own column: id from column 0, the text fields from the
   * byte ranges of columns 1-5 and 7, and birthDate from parsing the text of
   * column 6 (absent when the parse fails).
   */
  lemma DecodeRowBinding(s: Slice, row: int, decode: seq<byte> -> string,
                         parseDate: string -> Option<Date>)
    requires Bound(s.cols)
    ensures DecodeRow(s, row, decode, parseDate).Some? <==> RowSound(s, row)
    ensures DecodeRow(s, row, decode, parseDate).Some? ==>
      var u := DecodeRow(s, row, decode, parseDate).value;
      && u.id == s.cols[IdCol].values[row]
      && u.firstName == decode(SlotBytes(s.cols[FirstNameCol], row))
      && u.lastName == decode(SlotBytes(s.cols[LastNameCol], row))
      && u.emailAddress == decode(SlotBytes(s.cols[EmailAddressCol], row))
      && u.gender == decode(SlotBytes(s.cols[GenderCol], row))
      && u.country == decode(SlotBytes(s.cols[CountryCol], row))
      && u.birthDate == parseDate(decode(SlotBytes(s.cols[BirthDateCol], row)))
      && u.title == decode(SlotBytes(s.cols[TitleCol], row))
  {
  }

  /** The outcome of every live row of one batch, in row order. */
  function SliceRows(s: Slice, decode: seq<byte> -> string,
                     parseDate: string -> Option<Date>): seq<Option<User>>
    requires Bound(s.cols)
  {
    seq(s.size, row => DecodeRow(s, row, decode, parseDate))
  }

  predicate AllBound(slices: seq<Slice>)
  {
    forall i | 0 <= i < |slices| :: Bound(slices[i].cols)
  }

  /** The outcome of every live row of every batch: batch order, then row order. */
  function Rows(slices: seq<Slice>, decode: seq<byte> -> string,
                parseDate: string -> Option<Date>): (rows: seq<Option<User>>)
    requires AllBound(slices)
    ensures |rows| == TotalSize(slices)
  {
    if slices == [] then []
    else SliceRows(slices[0], decode, parseDate) + Rows(slices[1..], decode, parseDate)
  }

  /** The users of the longest run of rows, from the first, in which nothing threw. */
  function TakeOk(rows: seq<Option<User>>): (users: seq<User>)
    ensures |users| <= |rows|
  {
    if rows == [] || rows[0].None? then [] else [rows[0].value] + TakeOk(rows[1..])
  }

  /** The number of live rows in the batches. */
  function TotalSize(slices: seq<Slice>): nat
  {
    if slices == [] then 0 else slices[0].size + TotalSize(slices[1..])
  }

  /**
   * What parseOrc returns for a reader whose schema has the given kinds and
   * that yields the given batches: nothing when the vector casts fail,
   * otherwise the users of the rows read before the first exception.
   */
  function Parsed(kinds: seq<ColumnKind>, slices: seq<Slice>, decode: seq<byte> -> string,
                  parseDate: string -> Option<Date>): (users: seq<User>)
    requires forall i | 0 <= i < |slices| :: Fits(slices[i], kinds, DefaultBatchSize)
    ensures !Binds(kinds) ==> users == []
    ensures |users| <= TotalSize(slices)
  {
    if !Binds(kinds) then []
    else
      BindsAllBound(kinds, slices);
      TakeOk(Rows(slices, decode, parseDate))
  }

  lemma BindsAllBound(kinds: seq<ColumnKind>, slices: seq<Slice>)
    requires forall i | 0 <= i < |slices| :: Fits(slices[i], kinds, DefaultBatchSize)
    requires Binds(kinds)
    ensures AllBound(slices)
  {
    forall i | 0 <= i < |slices| ensures Bound(slices[i].cols) {
      FitsBound(slices[i], kinds, DefaultBatchSize);
    }
  }

  /** With a binding schema, Parsed unfolds to its second branch. */
  lemma ParsedRows(kinds: seq<ColumnKind>, slices: seq<Slice>, decode: seq<byte> -> string,
                   parseDate: string -> Option<Date>)
    requires forall i | 0 <= i < |slices| :: Fits(slices[i], kinds, DefaultBatchSize)
    requires Binds(kinds)
    ensures AllBound(slices)
    ensures Parsed(kinds, slices, decode, parseDate) == TakeOk(Rows(slices, decode, parseDate))
  {
    BindsAllBound(kinds, slices);
  }

  // ---------------------------------------------------------------------------
  // The decode loop.

  /**
   * The row loop over the contents of one refilled batch: append one User
   * per live row, in row order, stopping at the first row that throws (ok is
   * then false).
   */
  method AppendBatchRows(s: Slice, users: seq<User>, decode: seq<byte> -> string,
                         parseDate: string -> Option<Date>) returns (out: seq<User>, ok: bool)
    requires Bound(s.cols)
    ensures out == users + TakeOk(SliceRows(s, decode, parseDate))
    ensures ok <==> |TakeOk(SliceRows(s, decode, parseDate))| == s.size
  {
    ghost var rows := SliceRows(s, decode, parseDate);
    out := users;
    var row := 0;
    while row < s.size
      invariant 0 <= row <= s.size == |rows|
      invariant out == users + TakeOk(rows[..row])
      invariant |TakeOk(rows[..row])| == row
    {
      var u := DecodeRow(s, row, decode, parseDate);
      assert u == rows[row];
      if u.None? {
        TakeOkStop(rows, row);
        return out, false;
      }
      TakeOkExtend(rows, row);
      out := out + [u.value];
      row := row + 1;
    }
    assert rows[..row] == rows;
    ok := true;
  }

  /** After a clean run over the first k rows, a clean row k extends it by that row's user. */
  lemma TakeOkExtend(rows: seq<Option<User>>, k: nat)
    requires k < |rows| && rows[k].Some?
    requires |TakeOk(rows[..k])| == k
    ensures TakeOk(rows[..k + 1]) == TakeOk(rows[..k]) + [rows[k].value]
  {
    assert rows[..k + 1] == rows[..k] + [rows[k]];
    TakeOkAppend(rows[..k], [rows[k]]);
  }

  /** After a clean run over the first k rows, a row k that throws ends the run there. */
  lemma TakeOkStop(rows: seq<Option<User>>, k: nat)
    requires k < |rows| && rows[k].None?
    requires |TakeOk(rows[..k])| == k
    ensures TakeOk(rows) == TakeOk(rows[..k])
  {
    assert rows == rows[..k] + rows[k..];
    TakeOkAppend(rows[..k], rows[k..]);
  }

  /**
   * parseOrc, from the opened reader on. createRowBatch allocates the batch;
   * the vector casts either bind or throw into the catch-all, which returns
   * the (empty) list; then each batch nextBatch yields is walked row by row
   * and one User per row is appended. Any exception (a failed cast, a bad
   * slot, an IOException from nextBatch) ends the loop and the users
   * accumulated so far are returned. The reader is local to parseOrc in the
   * source, so nothing is promised about the state it is left in.
   */
  method ParseOrc(reader: RecordReader, decode: seq<byte> -> string,
                  parseDate: string -> Option<Date>) returns (users: seq<User>)
    requires reader.Valid()
    modifies reader
    ensures users == Parsed(reader.kinds, old(reader.pending), decode, parseDate)
  {
    var batch := new Batch(reader.kinds, DefaultBatchSize);
    users := [];
    if !Binds(batch.kinds) {
      return;
    }
    ghost var all := reader.pending;
    ParsedRows(reader.kinds, all, decode, parseDate);
    // n counts the batches yielded before the one in hand.
    ghost var n: nat := 0;
    var next := reader.NextBatch(batch);
    while next == Filled
      invariant reader.Valid() && batch.Valid()
      invariant batch.kinds == reader.kinds && batch.capacity == DefaultBatchSize
      invariant n <= |all|
      invariant next == Filled ==> n < |all| && batch.Contents() == all[n] && reader.pending == all[n + 1..]
      invariant next != Filled ==> n == |all|
      invariant AllBound(all[..n])
      invariant users == TakeOk(Rows(all[..n], decode, parseDate))
      invariant |users| == |Rows(all[..n], decode, parseDate)|
      decreases |all| - n
    {
      var ok;
      users, ok := AppendBatchRows(batch.Contents(), users, decode, parseDate);
      StepRows(all, n, decode, parseDate);
      if !ok {
        return;
      }
      n := n + 1;
      next := reader.NextBatch(batch);
    }
    assert all[..n] == all;
  }

  /**
   * Walking batch n after a clean run over the batches before it appends
   * that batch's clean run; if the batch throws part-way, nothing after it
   * is added.
   */
  lemma StepRows(all: seq<Slice>, n: nat, decode: seq<byte> -> string,
                 parseDate: string -> Option<Date>)
    requires AllBound(all) && n < |all|
    requires AllBound(all[..n])
    requires |TakeOk(Rows(all[..n], decode, parseDate))| == |Rows(all[..n], decode, parseDate)|
    ensures AllBound(all[..n + 1])
    ensures TakeOk(Rows(all[..n + 1], decode, parseDate))
            == TakeOk(Rows(all[..n], decode, parseDate)) + TakeOk(SliceRows(all[n], decode, parseDate))
    ensures |TakeOk(SliceRows(all[n], decode, parseDate))| == all[n].size ==>
            |TakeOk(Rows(all[..n + 1], decode, parseDate))| == |Rows(all[..n + 1], decode, parseDate)|
    ensures |TakeOk(SliceRows(all[n], decode, parseDate))| != all[n].size ==>
            TakeOk(Rows(all, decode, parseDate)) == TakeOk(Rows(all[..n + 1], decode, parseDate))
  {
    var pre, cur, rest := all[..n], all[n], all[n + 1..];
    assert all[..n + 1] == pre + [cur];
    assert all == pre + [cur] + rest;
    AllBoundSlice(all, n + 1, |all|);
    RowsThrough(pre, cur, decode, parseDate);
    if |TakeOk(SliceRows(cur, decode, parseDate))| != cur.size {
      RowsStop(pre + [cur], rest, decode, parseDate);
    }
  }

  lemma AllBoundSlice(all: seq<Slice>, lo: nat, hi: nat)
    requires AllBound(all) && lo <= hi <= |all|
    ensures AllBound(all[lo..hi])
  {
    forall i | 0 <= i < hi - lo ensures Bound(all[lo..hi][i].cols) {
      assert all[lo..hi][i] == all[lo + i];
    }
  }

  /** After a clean run over done, the next batch's clean run is appended to it. */
  lemma RowsThrough(done: seq<Slice>, cur: Slice, decode: seq<byte> -> string,
                    parseDate: string -> Option<Date>)
    requires AllBound(done) && Bound(cur.cols)
    requires |TakeOk(Rows(done, decode, parseDate))| == |Rows(done, decode, parseDate)|
    ensures AllBound(done + [cur])
    ensures TakeOk(Rows(done + [cur], decode, parseDate))
            == TakeOk(Rows(done, decode, parseDate)) + TakeOk(SliceRows(cur, decode, parseDate))
    ensures |Rows(done + [cur], decode, parseDate)| == |Rows(done, decode, parseDate)| + cur.size
    ensures |TakeOk(Rows(done + [cur], decode, parseDate))| == |Rows(done + [cur], decode, parseDate)|
            <==> |TakeOk(SliceRows(cur, decode, parseDate))| == cur.size
  {
    var cr := SliceRows(cur, decode, parseDate);
    RowsAppend(done, [cur], decode, parseDate);
    assert Rows([cur], decode, parseDate) == cr;
    TakeOkAppend(Rows(done, decode, parseDate), cr);
  }

  /** A batch that throws part-way ends the result: later batches add nothing. */
  lemma RowsStop(front: seq<Slice>, rest: seq<Slice>, decode: seq<byte> -> string,
                 parseDate: string -> Option<Date>)
    requires AllBound(front) && AllBound(rest)
    requires |TakeOk(Rows(front, decode, parseDate))| < |Rows(front, decode, parseDate)|
    ensures AllBound(front + rest)
    ensures TakeOk(Rows(front + rest, decode, parseDate)) == TakeOk(Rows(front, decode, parseDate))
  {
    RowsAppend(front, rest, decode, parseDate);
    TakeOkAppend(Rows(front, decode, parseDate), Rows(rest, decode, parseDate));
  }

  // ---------------------------------------------------------------------------
  // Lemmas about the row sequence.

  /**
   * TakeOk keeps exactly the leading run of successes: each kept user is the
   * row at its position, and the row after the run, if any, threw.
   */
  lemma {:induction false} TakeOkSpec(rows: seq<Option<User>>)
    ensures forall k | 0 <= k < |TakeOk(rows)| :: rows[k] == Some(TakeOk(rows)[k])
    ensures |TakeOk(rows)| < |rows| ==> rows[|TakeOk(rows)|].None?
    decreases |rows|
  {
    if rows != [] && rows[0].Some? {
      TakeOkSpec(rows[1..]);
    }
  }

  lemma {:induction false} TakeOkAppend(x: seq<Option<User>>, y: seq<Option<User>>)
    ensures TakeOk(x + y) == if |TakeOk(x)| == |x| then TakeOk(x) + TakeOk(y) else TakeOk(x)
    decreases |x|
  {
    if x != [] {
      assert (x + y)[0] == x[0] && (x + y)[1..] == x[1..] + y;
      if x[0].Some? {
        TakeOkAppend(x[1..], y);
      }
    } else {
      assert x + y == y;
    }
  }

  lemma {:induction false} RowsAppend(a: seq<Slice>, b: seq<Slice>, decode: seq<byte> -> string,
                                      parseDate: string -> Option<Date>)
    requires AllBound(a) && AllBound(b)
    ensures AllBound(a + b)
    ensures Rows(a + b, decode, parseDate) == Rows(a, decode, parseDate) + Rows(b, decode, parseDate)
    decreases |a|
  {
    assert AllBound(a + b) by {
      forall i | 0 <= i < |a + b| ensures Bound((a + b)[i].cols) {
        if i < |a| { assert (a + b)[i] == a[i]; } else { assert (a + b)[i] == b[i - |a|]; }
      }
    }
    if a != [] {
      assert (a + b)[1..] == a[1..] + b;
      RowsAppend(a[1..], b, decode, parseDate);
    } else {
      assert a + b == b;
    }
  }

  /** The k-th row outcome is that of the k-th live row: batch b's row r sits at TotalSize(before b) + r. */
  lemma {:induction false} RowsAt(slices: seq<Slice>, b: nat, row: nat, decode: seq<byte> -> string,
                                  parseDate: string -> Option<Date>)
    requires AllBound(slices)
    requires b < |slices| && row < slices[b].size
    ensures TotalSize(slices[..b]) + row < |Rows(slices, decode, parseDate)|
    ensures Rows(slices, decode, parseDate)[TotalSize(slices[..b]) + row]
            == DecodeRow(slices[b], row, decode, parseDate)
    decreases b
  {
    if b > 0 {
      RowsAt(slices[1..], b - 1, row, decode, parseDate);
      assert slices[..b][1..] == slices[1..][..b - 1];
    } else {
      assert slices[..b] == [];
    }
  }

  // ---------------------------------------------------------------------------
  // Properties of parseOrc's result.

  /**
   * Order and provenance: if the result reaches position k = (live rows of
   * the batches before b) + row, its k-th user is the one decoded from live
   * row row of batch b.
   */
  lemma ParsedOrder(kinds: seq<ColumnKind>, slices: seq<Slice>, b: nat, row: nat,
                    decode: seq<byte> -> string, parseDate: string -> Option<Date>)
    requires forall i | 0 <= i < |slices| :: Fits(slices[i], kinds, DefaultBatchSize)
    requires b < |slices| && row < slices[b].size
    requires TotalSize(slices[..b]) + row < |Parsed(kinds, slices, decode, parseDate)|
    ensures Bound(slices[b].cols)
    ensures Some(Parsed(kinds, slices, decode, parseDate)[TotalSize(slices[..b]) + row])
            == DecodeRow(slices[b], row, decode, parseDate)
  {
    BindsAllBound(kinds, slices);
    RowsAt(slices, b, row, decode, parseDate);
    TakeOkSpec(Rows(slices, decode, parseDate));
    DecodeRowBinding(slices[b], row, decode, parseDate);
  }

  /**
   * With a binding schema, parseOrc's result is the leading run of rows that
   * read without an exception: each user is the row outcome at its own
   * position (batch order, then row order), and the row right after the
   * result, if there is one, threw.
   */
  lemma ParsedLeadingRun(kinds: seq<ColumnKind>, slices: seq<Slice>,
                         decode: seq<byte> -> string, parseDate: string -> Option<Date>)
    requires forall i | 0 <= i < |slices| :: Fits(slices[i], kinds, DefaultBatchSize)
    requires Binds(kinds)
    ensures AllBound(slices)
    ensures forall k | 0 <= k < |Parsed(kinds, slices, decode, parseDate)| ::
      Rows(slices, decode, parseDate)[k] == Some(Parsed(kinds, slices, decode, parseDate)[k])
    ensures |Parsed(kinds, slices, decode, parseDate)| < TotalSize(slices) ==>
      Rows(slices, decode, parseDate)[|Parsed(kinds, slices, decode, parseDate)|].None?
  {
    ParsedRows(kinds, slices, decode, parseDate);
    TakeOkSpec(Rows(slices, decode, parseDate));
  }

  /**
   * Every position below the number of live rows is some live row of some
   * batch: the rows of the batches before b, then row.
   */
  lemma {:induction false} Position(slices: seq<Slice>, k: nat) returns (b: nat, row: nat)
    requires k < TotalSize(slices)
    ensures b < |slices| && row < slices[b].size
    ensures k == TotalSize(slices[..b]) + row
    decreases |slices|
  {
    if k < slices[0].size {
      b, row := 0, k;
      assert slices[..0] == [];
    } else {
      var b', row' := Position(slices[1..], k - slices[0].size);
      b, row := b' + 1, row';
      assert slices[..b][1..] == slices[1..][..b'];
    }
  }

  /**
   * The k-th user returned is the user decoded from some live row: the row
   * whose position, batches in order and rows in order, is k.
   */
  lemma ParsedUser(kinds: seq<ColumnKind>, slices: seq<Slice>, k: nat,
                   decode: seq<byte> -> string, parseDate: string -> Option<Date>)
    returns (b: nat, row: nat)
    requires forall i | 0 <= i < |slices| :: Fits(slices[i], kinds, DefaultBatchSize)
    requires k < |Parsed(kinds, slices, decode, parseDate)|
    ensures b < |slices| && row < slices[b].size && k == TotalSize(slices[..b]) + row
    ensures Bound(slices[b].cols)
    ensures Some(Parsed(kinds, slices, decode, parseDate)[k]) == DecodeRow(slices[b], row, decode, parseDate)
  {
    b, row := Position(slices, k);
    ParsedOrder(kinds, slices, b, row, decode, parseDate);
  }

  /**
   * The first exception ends the read: if the result is shorter than the
   * number of live rows, the live row at its length (the next one) threw.
   */
  lemma ParsedStopsAtFault(kinds: seq<ColumnKind>, slices: seq<Slice>, b: nat, row: nat,
                           decode: seq<byte> -> string, parseDate: string -> Option<Date>)
    requires forall i | 0 <= i < |slices| :: Fits(slices[i], kinds, DefaultBatchSize)
    requires Binds(kinds)
    requires b < |slices| && row < slices[b].size
    requires TotalSize(slices[..b]) + row == |Parsed(kinds, slices, decode, parseDate)|
    ensures Bound(slices[b].cols)
    ensures !RowSound(slices[b], row)
  {
    BindsAllBound(kinds, slices);
    RowsAt(slices, b, row, decode, parseDate);
    TakeOkSpec(Rows(slices, decode, parseDate));
    DecodeRowBinding(slices[b], row, decode, parseDate);
  }

  /** Every live row of every batch reads without an exception. */
  ghost predicate AllRowsSound(slices: seq<Slice>)
    requires AllBound(slices)
  {
    forall b, row | 0 <= b < |slices| && 0 <= row < slices[b].size :: RowSound(slices[b], row)
  }

  /**
   * With no exception, one user per live row: the count is the sum of the
   * batch sizes.
   */
  lemma {:induction false} ParsedCount(kinds: seq<ColumnKind>, slices: seq<Slice>,
                                       decode: seq<byte> -> string, parseDate: string -> Option<Date>)
    requires forall i | 0 <= i < |slices| :: Fits(slices[i], kinds, DefaultBatchSize)
    requires Binds(kinds)
    ensures AllBound(slices)
    ensures AllRowsSound(slices) ==> |Parsed(kinds, slices, decode, parseDate)| == TotalSize(slices)
    decreases |slices|
  {
    BindsAllBound(kinds, slices);
    if slices != [] && AllRowsSound(slices) {
      var rest := slices[1..];
      ParsedCount(kinds, rest, decode, parseDate);
      assert AllRowsSound(rest) by {
        forall b, row | 0 <= b < |rest| && 0 <= row < rest[b].size ensures RowSound(rest[b], row) {
          assert rest[b] == slices[b + 1];
        }
      }
      var first := SliceRows(slices[0], decode, parseDate);
      assert forall row | 0 <= row < |first| :: first[row].Some? by {
        forall row | 0 <= row < |first| ensures first[row].Some? {
          assert RowSound(slices[0], row);
          DecodeRowBinding(slices[0], row, decode, parseDate);
        }
      }
      TakeOkAllSome(first);
      TakeOkAppend(first, Rows(rest, decode, parseDate));
    }
  }

  lemma {:induction false} TakeOkAllSome(rows: seq<Option<User>>)
    requires forall k | 0 <= k < |rows| :: rows[k].Some?
    ensures |TakeOk(rows)| == |rows|
    decreases |rows|
  {
    if rows != [] {
      TakeOkAllSome(rows[1..]);
    }
  }

  /**
   * A reader cut short (an IOException after the batches in a, or a file
   * that ends there) returns a prefix of what one yielding more batches
   * would have returned.
   */
  lemma ParsedPrefix(kinds: seq<ColumnKind>, a: seq<Slice>, b: seq<Slice>,
                     decode: seq<byte> -> string, parseDate: string -> Option<Date>)
    requires forall i | 0 <= i < |a + b| :: Fits((a + b)[i], kinds, DefaultBatchSize)
    ensures forall i | 0 <= i < |a| :: Fits(a[i], kinds, DefaultBatchSize)
    ensures Parsed(kinds, a, decode, parseDate) <= Parsed(kinds, a + b, decode, parseDate)
  {
    assert forall i | 0 <= i < |a| :: (a + b)[i] == a[i];
    assert forall i | 0 <= i < |b| :: (a + b)[|a| + i] == b[i];
    if Binds(kinds) {
      BindsAllBound(kinds, a + b);
      BindsAllBound(kinds, a);
      BindsAllBound(kinds, b);
      RowsAppend(a, b, decode, parseDate);
      TakeOkAppend(Rows(a, decode, parseDate), Rows(b, decode, parseDate));
    }
  }

  /**
   * A date that fails to parse costs only the date: the row is kept or
   * dropped exactly as with any other date parser, and its other seven
   * fields are the same.
   */
  lemma DateFailureKeepsRow(s: Slice, row: int, decode: seq<byte> -> string,
                            parseDate: string -> Option<Date>, other: string -> Option<Date>)
    requires Bound(s.cols)
    ensures DecodeRow(s, row, decode, parseDate).Some? == DecodeRow(s, row, decode, other).Some?
    ensures DecodeRow(s, row, decode, parseDate).Some? ==>
      DecodeRow(s, row, decode, parseDate).value.(birthDate := None)
      == DecodeRow(s, row, decode, other).value.(birthDate := None)
    ensures DecodeRow(s, row, decode, parseDate).Some? &&
            parseDate(decode(SlotBytes(s.cols[BirthDateCol], row))).None? ==>
      DecodeRow(s, row, decode, parseDate).value.birthDate.None?
  {
  }

  /** What a row reads from one vector: its slot. */
  datatype Slot = LongSlot(value: int64) | BytesSlot(buffer: Option<seq<byte>>, start: int, length: int) | NoSlot

  function SlotOf(c: Column, row: int): Slot
  {
    match c
    case LongColumn(values) => if 0 <= row < |values| then LongSlot(values[row]) else NoSlot
    case BytesColumn(vector, start, length) =>
      if 0 <= row < |vector| && row < |start| && row < |length|
      then BytesSlot(vector[row], start[row], length[row]) else NoSlot
    case OtherColumn => NoSlot
  }

  /** Two batch contents with the same live size and the same live slots in the bound vectors. */
  ghost predicate SameLiveSlots(s: Slice, t: Slice)
  {
    && s.size == t.size
    && |s.cols| > TitleCol && |t.cols| > TitleCol
    && (forall i | IdCol <= i <= TitleCol :: KindOf(s.cols[i]) == KindOf(t.cols[i]))
    && forall i, row | IdCol <= i <= TitleCol && 0 <= row < s.size :: SlotOf(s.cols[i], row) == SlotOf(t.cols[i], row)
  }

  lemma FieldBytesBySlot(c: Column, d: Column, row: int)
    requires c.BytesColumn? && d.BytesColumn? && SlotOf(c, row) == SlotOf(d, row)
    ensures FieldBytes(c, row) == FieldBytes(d, row)
  {
  }

  /**
   * Only live slots are read: slots at or beyond the live size (stale
   * values from an earlier batch, say) do not affect the decoded rows.
   */
  lemma LiveSlotsOnly(s: Slice, t: Slice, decode: seq<byte> -> string, parseDate: string -> Option<Date>)
    requires Bound(s.cols) && Bound(t.cols) && SameLiveSlots(s, t)
    ensures SliceRows(s, decode, parseDate) == SliceRows(t, decode, parseDate)
  {
    forall row | 0 <= row < s.size
      ensures DecodeRow(s, row, decode, parseDate) == DecodeRow(t, row, decode, parseDate)
    {
      assert SlotOf(s.cols[IdCol], row) == SlotOf(t.cols[IdCol], row);
      forall i | FirstNameCol <= i <= TitleCol ensures FieldBytes(s.cols[i], row) == FieldBytes(t.cols[i], row) {
        assert SlotOf(s.cols[i], row) == SlotOf(t.cols[i], row);
        FieldBytesBySlot(s.cols[i], t.cols[i], row);
      }
    }
  }

  // ---------------------------------------------------------------------------
  // The local file name of an object key.

  /** orcKey.substring(orcKey.lastIndexOf('/') + 1). */
  function FileName(key: string): (name: string)
    ensures '/' !in name
    ensures |name| <= |key| && key == key[..|key| - |name|] + name
    ensures |name| < |key| ==> key[|key| - |name| - 1] == '/'
    ensures '/' !in key ==> name == key
  {
    key[LastIndexOf(key, '/') + 1..]
  }

  /**
   * The name is determined by those properties: splitting a key anywhere
   * into a part that is empty or ends in '/' and a '/'-free rest gives the
   * file name as that rest.
   */
  lemma FileNameUnique(key: string, dir: string, name: string)
    requires key == dir + name && '/' !in name
    requires dir == [] || dir[|dir| - 1] == '/'
    ensures FileName(key) == name
  {
    var i := LastIndexOf(key, '/');
    if dir == [] {
      assert key == name;
    } else {
      assert key[|dir| - 1] == '/';
      assert i == |dir| - 1;
      assert key[i + 1..] == name;
    }
  }

  /**
   * The pathname string passed to new File: "/tmp/" + the file name
   * (File's normalisation of the pathname is not modelled).
   */
  function LocalPath(key: string): (path: string)
    ensures FileName(path) == FileName(key)
  {
    FileNameUnique("/tmp/" + FileName(key), "/tmp/", FileName(key));
    "/tmp/" + FileName(key)
  }

  /** Taking the file name twice changes nothing. */
  lemma FileNameIdempotent(key: string)
    ensures FileName(FileName(key)) == FileName(key)
  {
  }
}
