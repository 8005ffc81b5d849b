/**
 * The slice of the ORC reader the parser uses: column vectors, the reusable
 * row batch (VectorizedRowBatch) and the record reader that refills it in
 * place. The on-disk format is not modelled: a reader is the sequence of
 * batch contents it will yield, then either the end of the file or an
 * IOException.
 */
module OrcBatch {
  import opened Wrappers
  import opened Strings

  /** A Java byte; only ever copied, so its sign does not matter. */
  newtype byte = x: int | 0 <= x < 256

  /** The vector class a schema type is read into. */
  datatype ColumnKind = LongKind | BytesKind | OtherKind

  /**
   * One column vector's slots. A LongColumnVector holds one long per slot; a
   * BytesColumnVector holds, per slot, a reference to a byte buffer (None
   * where the Java reference is null) and the start and length of the
   * slot's value in it; any other vector class is opaque here.
   */
  datatype Column =
    | LongColumn(values: seq<int64>)
    | BytesColumn(vector: seq<Option<seq<byte>>>, start: seq<int>, length: seq<int>)
    | OtherColumn

  function KindOf(c: Column): ColumnKind
  {
    match c
    case LongColumn(_) => LongKind
    case BytesColumn(_, _, _) => BytesKind
    case OtherColumn => OtherKind
  }

  /** Every slot array of the column has room for exactly capacity rows. */
  predicate HasCapacity(c: Column, capacity: nat)
  {
    match c
    case LongColumn(values) => |values| == capacity
    case BytesColumn(vector, start, length) =>
      |vector| == capacity && |start| == capacity && |length| == capacity
    case OtherColumn => true
  }

  /** The contents of a batch: the live row count and the column vectors. */
  datatype Slice = Slice(size: nat, cols: seq<Column>)

  /**
   * What the reader guarantees of every batch it fills: one vector per schema
   * column, of the schema's kind and the batch's capacity, and no more live
   * rows than the capacity. Slots at and beyond size hold whatever was there.
   */
  ghost predicate Fits(s: Slice, kinds: seq<ColumnKind>, capacity: nat)
  {
    && s.size <= capacity
    && |s.cols| == |kinds|
    && forall i | 0 <= i < |s.cols| :: KindOf(s.cols[i]) == kinds[i] && HasCapacity(s.cols[i], capacity)
  }

  /** VectorizedRowBatch.DEFAULT_SIZE, the capacity createRowBatch() allocates. */
  const DefaultBatchSize: nat := 1024

  /** A freshly allocated vector: zeros, null buffers. */
  function EmptyColumn(kind: ColumnKind, capacity: nat): (c: Column)
    ensures KindOf(c) == kind && HasCapacity(c, capacity)
  {
    match kind
    case LongKind => LongColumn(seq(capacity, _ => 0))
    case BytesKind => BytesColumn(seq(capacity, _ => None), seq(capacity, _ => 0), seq(capacity, _ => 0))
    case OtherKind => OtherColumn
  }

  /** The row batch, reused across reads and refilled in place by the reader. */
  class Batch {
    const kinds: seq<ColumnKind>
    const capacity: nat
    var size: nat
    var cols: seq<Column>

    ghost predicate Valid()
      reads this
    {
      Fits(Contents(), kinds, capacity)
    }

    function Contents(): Slice
      reads this
    {
      Slice(size, cols)
    }

    /** TypeDescription.createRowBatch: one empty vector per schema column. */
    constructor (kinds: seq<ColumnKind>, capacity: nat)
      ensures Valid()
      ensures this.kinds == kinds && this.capacity == capacity
      ensures size == 0 && |cols| == |kinds|
    {
      this.kinds := kinds;
      this.capacity := capacity;
      size := 0;
      cols := seq(|kinds|, i requires 0 <= i < |kinds| => EmptyColumn(kinds[i], capacity));
    }
  }

  /** The three ways RecordReader.nextBatch can end. */
  datatype Next = Filled | Exhausted | Threw

  /**
   * RecordReader. It yields the batches in pending, in order; once they are
   * used up it reports the end of the file, or throws an IOException when
   * fault is set. The reader's schema fixes the kinds of its batches' columns.
   */
  class RecordReader {
    const kinds: seq<ColumnKind>
    var pending: seq<Slice>
    var fault: bool

    ghost predicate Valid()
      reads this
    {
      forall i | 0 <= i < |pending| :: Fits(pending[i], kinds, DefaultBatchSize)
    }

    constructor (kinds: seq<ColumnKind>, batches: seq<Slice>, fault: bool)
      requires forall i | 0 <= i < |batches| :: Fits(batches[i], kinds, DefaultBatchSize)
      ensures Valid()
      ensures this.kinds == kinds && pending == batches && this.fault == fault
    {
      this.kinds := kinds;
      pending := batches;
      this.fault := fault;
    }

    /**
     * nextBatch: refill batch in place with the next slice of rows. At the
     * end of the file it sets the live size to 0 and answers false, as often
     * as it is asked; a faulty reader throws there instead.
     */
    method NextBatch(batch: Batch) returns (r: Next)
      requires Valid() && batch.Valid()
      requires batch.kinds == kinds && batch.capacity == DefaultBatchSize
      modifies this, batch
      ensures Valid() && batch.Valid()
      ensures fault == old(fault)
      ensures old(pending) != [] ==>
        r == Filled && batch.Contents() == old(pending)[0] && pending == old(pending)[1..]
      ensures old(pending) == [] && fault ==>
        r == Threw && pending == [] && unchanged(batch)
      ensures old(pending) == [] && !fault ==>
        r == Exhausted && pending == [] && batch.size == 0 && batch.cols == old(batch.cols)
    {
      if pending != [] {
        batch.size, batch.cols := pending[0].size, pending[0].cols;
        pending := pending[1..];
        r := Filled;
      } else if fault {
        r := Threw;
      } else {
        batch.size := 0;
        r := Exhausted;
      }
    }
  }
}
