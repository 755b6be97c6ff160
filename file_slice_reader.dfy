/**
 * `HoodieFileSliceReader`: a lazy, single-slot-buffered iterator over the merged view of
 * one file slice. The base file's records are read through a forward-only cursor; each
 * one's key is looked up, and removed, in the scanner's map of pending log records; once
 * the cursor is exhausted, the records left in the map are handed out by the tail phase.
 */
module FileSliceReader {
  import opened Wrappers
  import opened Collaborators
  import opened SliceMerge

  /** The resources the reader closes. */
  datatype Resource = LogScanner | BaseFileIterator | BaseFileReader

  /**
   * The order of the closes made by `close`: the scanner-side resources first, then the
   * base-file iterator and the base-file reader, which exist exactly when a base file does.
   */
  function CloseOrder(hasBaseFile: bool): (order: seq<Resource>)
    ensures |order| > 0 && order[0] == LogScanner
    ensures BaseFileIterator in order <==> hasBaseFile
    ensures BaseFileReader in order <==> hasBaseFile
    ensures forall i, j :: 0 <= i < j < |order| ==> order[i] != order[j]
    ensures forall i, j :: 0 <= i < |order| && 0 <= j < |order| && order[i] == BaseFileIterator && order[j] == BaseFileReader ==> i < j
  {
    [LogScanner] + (if hasBaseFile then [BaseFileIterator] else []) + (if hasBaseFile then [BaseFileReader] else [])
  }

  class HoodieFileSliceReader<R> {
    /** The records of the base file's iterator; `None` when the slice has no base file. */
    const baseFile: Option<seq<R>>
    /** Key extractor, merger, payload properties and wrap step. */
    const ctx: Context<R>
    /** The scanner's pending log records as they were at construction. */
    ghost const initial: map<Key, R>

    /** The number of base records the cursor has handed out. */
    var pos: nat
    /** The live map of pending log records: the scanner's map, shared with the parent iterator, as a value. */
    var records: map<Key, R>
    /** The single-slot buffer of the next record to hand out. */
    var nextRecord: Option<R>
    /** The closes made so far, in order. */
    var closed: seq<Resource>

    /** Everything put into the buffer or raised, in order. */
    ghost var emitted: seq<Emission<R>>
    /** Every call of the merger, in order. */
    ghost var mergeCalls: seq<MergeCall<R>>
    /** The emissions of the tail phase so far. */
    ghost var drained: seq<Emission<R>>

    /** The base cursor's records; empty when there is no base file. */
    function Cursor(): seq<R> {
      if baseFile.Some? then baseFile.value else []
    }

    ghost predicate Valid()
      reads this
    {
      ReaderInvariant(ctx, Cursor(), initial, pos, records, emitted, mergeCalls, drained)
    }

    /**
     * Builds the reader: the base cursor exists exactly when a base file does, the merge
     * properties carry the ordering field exactly when a pre-combine field is given, and
     * the live map starts as the scanner's map.
     */
    constructor (baseFile: Option<seq<R>>, scannerRecords: map<Key, R>, preCombineField: Option<string>,
                 keyOf: R -> Key, merge: (R, R, Props) -> Option<R>, wrap: R -> WrapOutcome<R>)
      ensures Valid()
      ensures this.baseFile == baseFile
      ensures ctx == Context(keyOf, merge, PayloadProps(preCombineField), wrap)
      ensures initial == scannerRecords && records == scannerRecords
      ensures pos == 0 && nextRecord == None && closed == []
      ensures emitted == [] && mergeCalls == [] && drained == []
    {
      this.baseFile := baseFile;
      this.ctx := Context(keyOf, merge, PayloadProps(preCombineField), wrap);
      this.initial := scannerRecords;
      this.records := scannerRecords;
      this.pos := 0;
      this.nextRecord := None;
      this.closed := [];
      this.emitted := [];
      this.mergeCalls := [];
      this.drained := [];
      new;
      InvariantInit(ctx, Cursor(), initial);
    }

    /** Removes the pending log record of `key`, answering it when there was one. */
    method RemoveLogRecord(key: Key) returns (logRecord: Option<R>)
      modifies this`records
      ensures logRecord == (if key in old(records) then Some(old(records)[key]) else None)
      ensures records == old(records) - {key}
    {
      logRecord := if key in records then Some(records[key]) else None;
      records := records - {key};
    }

    /**
     * Advances to the next merged record. Reads base records until one yields a record,
     * a deleted one yielding nothing; when the cursor is exhausted, hands over to the tail
     * phase. `Ok(true)`: the buffer holds the next record. `Ok(false)`: nothing is left.
     * `Err`: wrapping failed, and the error ends the call.
     */
    method DoHasNext() returns (res: Result<bool, ReadError>)
      requires Valid()
      modifies this`pos, this`records, this`nextRecord, this`emitted, this`mergeCalls, this`drained
      ensures Valid()
      ensures old(pos) <= pos
      ensures records.Keys <= old(records).Keys
      ensures res == Ok(false) <==> pos == |Cursor()| && records == map[] && emitted == old(emitted)
      ensures res == Ok(false) ==> nextRecord == old(nextRecord)
      ensures res != Ok(false) ==>
        && |emitted| == |old(emitted)| + 1 && emitted[..|old(emitted)|] == old(emitted)
        && (old(pos) < pos || records.Keys < old(records).Keys)
      ensures res == Ok(true) ==> nextRecord.Some? && emitted[|emitted| - 1].value == Ok(nextRecord.value)
      ensures res.Err? ==> nextRecord == old(nextRecord) && emitted[|emitted| - 1].value == Err(res.error)
      ensures res != Ok(false) && emitted[|emitted| - 1].origin.FromBase? ==> pos == emitted[|emitted| - 1].origin.pos + 1
    {
      while baseFile.Some? && pos < |baseFile.value|
        invariant Valid()
        invariant old(pos) <= pos
        invariant records.Keys <= old(records).Keys
        invariant emitted == old(emitted) && nextRecord == old(nextRecord)
        decreases |Cursor()| - pos
      {
        var found, r := ReadBaseRecord();
        if found {
          return r;
        }
      }
      res := TailHasNext();
    }

    /**
     * One turn of the base loop: reads the record under the cursor, removes its key from
     * the pending map, and hands out the record itself when no log record was pending,
     * the merger's result when it gives one, and nothing when the merger deletes the key.
     * `found` says whether the call ends here, with `res` its answer.
     */
    method ReadBaseRecord() returns (found: bool, res: Result<bool, ReadError>)
      requires Valid() && pos < |Cursor()|
      modifies this`pos, this`records, this`nextRecord, this`emitted, this`mergeCalls
      ensures Valid()
      ensures pos == old(pos) + 1
      ensures records == old(records) - {ctx.keyOf(Cursor()[old(pos)])}
      ensures emitted == old(emitted) + AsSeq(StepAt(ctx, Cursor(), initial, old(pos)))
      ensures mergeCalls == old(mergeCalls) + AsSeq(CallAt(ctx, Cursor(), initial, old(pos)))
      ensures found <==> StepAt(ctx, Cursor(), initial, old(pos)).Some?
      ensures found ==> res != Ok(false) && |emitted| == |old(emitted)| + 1
      ensures found ==> emitted[|emitted| - 1].origin == FromBase(old(pos), ctx.keyOf(Cursor()[old(pos)]) in old(records))
      ensures !found ==> nextRecord == old(nextRecord)
      ensures found && res == Ok(true) ==> nextRecord.Some? && emitted[|emitted| - 1].value == Ok(nextRecord.value)
      ensures found && res.Err? ==> nextRecord == old(nextRecord) && emitted[|emitted| - 1].value == Err(res.error)
    {
      var p := pos;
      var current := baseFile.value[p];
      InvariantBaseStep(ctx, Cursor(), initial, p, records, emitted, mergeCalls, drained);
      pos := pos + 1;
      var key := ctx.keyOf(current);
      var logRecord := RemoveLogRecord(key);
      if logRecord.None? {
        var wrapped := Wrap(ctx, current);
        emitted := emitted + [Emission(key, FromBase(p, false), wrapped)];
        if wrapped.Err? {
          return true, Err(wrapped.error);
        }
        nextRecord := Some(wrapped.value);
        return true, Ok(true);
      }
      var merged := ctx.merge(current, logRecord.value, ctx.props);
      mergeCalls := mergeCalls + [MergeCall(p, current, logRecord.value, merged)];
      if merged.Some? {
        var wrapped := Wrap(ctx, merged.value);
        emitted := emitted + [Emission(key, FromBase(p, true), wrapped)];
        if wrapped.Err? {
          return true, Err(wrapped.error);
        }
        nextRecord := Some(wrapped.value);
        return true, Ok(true);
      }
      return false, Ok(false);
    }

    /**
     * The tail phase: hands out one of the pending records left, unchanged, and removes it,
     * so that every one is handed out exactly once, in no particular order.
     */
    method TailHasNext() returns (res: Result<bool, ReadError>)
      requires Valid() && pos == |Cursor()|
      modifies this`records, this`nextRecord, this`emitted, this`drained
      ensures Valid()
      ensures res.Ok?
      ensures res.value <==> old(records) != map[]
      ensures !res.value ==> records == old(records) && nextRecord == old(nextRecord) && emitted == old(emitted)
      ensures res.value ==> |emitted| == |old(emitted)| + 1
      ensures res.value ==>
        var e := emitted[|emitted| - 1];
        && emitted == old(emitted) + [e]
        && e.origin == FromLogOnly && e.key in old(records)
        && nextRecord == Some(old(records)[e.key]) && e.value == Ok(old(records)[e.key])
        && records == old(records) - {e.key}
    {
      if records == map[] {
        return Ok(false);
      }
      var key :| key in records;
      var logRecord := records[key];
      InvariantTailStep(ctx, Cursor(), initial, pos, records, emitted, mergeCalls, drained, key);
      var e := Emission(key, FromLogOnly, Ok(logRecord));
      nextRecord := Some(logRecord);
      records := records - {key};
      drained := drained + [e];
      emitted := emitted + [e];
      return Ok(true);
    }

    /**
     * Closes the scanner-side resources, then the base-file iterator if there is one,
     * then the base-file reader if there is one.
     */
    method Close()
      modifies this`closed
      ensures closed == old(closed) + CloseOrder(baseFile.Some?)
    {
      closed := closed + [LogScanner];
      if baseFile.Some? {
        closed := closed + [BaseFileIterator];
      }
      if baseFile.Some? {
        closed := closed + [BaseFileReader];
      }
    }

    /**
     * Once both sources are exhausted (distinct base keys): the reader has emitted every
     * key of the base file and of the scanner's map except the deleted ones, each exactly
     * once, base-derived emissions first and in base order.
     */
    lemma Exhausted()
      requires Valid() && pos == |Cursor()| && records == map[]
      requires DistinctBaseKeys(ctx, Cursor())
      ensures KeySet(emitted) == (BaseKeys(ctx, Cursor(), |Cursor()|) + initial.Keys) - DeletedKeys(ctx, Cursor(), initial, |Cursor()|)
      ensures DistinctKeys(emitted)
      ensures BaseFirstInBaseOrder(emitted)
      ensures mergeCalls == BaseMergeCalls(ctx, Cursor(), initial, |Cursor()|)
    {
      var rest := Pending(ctx, Cursor(), initial, pos);
      assert KeySet(drained) <= rest.Keys;
      forall k | k in rest ensures k in KeySet(drained) {
        assert k !in records;
      }
      assert Drain(drained, rest);
      ExactlyOnce(ctx, Cursor(), initial, drained);
      Ordering(ctx, Cursor(), initial, drained);
    }

    /**
     * Lookups are destructive and never rewrite a value: the live map is the scanner's
     * map with the keys read so far (base keys and tail keys) removed.
     */
    lemma LiveRecordsAreScannerRecords()
      requires Valid()
      ensures forall k :: k in records ==> k in initial && records[k] == initial[k]
      ensures forall p :: 0 <= p < pos ==> ctx.keyOf(Cursor()[p]) !in records
      ensures forall i :: 0 <= i < |drained| ==> drained[i].key !in records
    {
      PendingIsDifference(ctx, Cursor(), initial, pos);
      forall p | 0 <= p < pos ensures ctx.keyOf(Cursor()[p]) !in records {
        assert ctx.keyOf(Cursor()[p]) in BaseKeys(ctx, Cursor(), pos);
      }
      forall i | 0 <= i < |drained| ensures drained[i].key !in records {
        assert drained[i].key in KeySet(drained);
      }
    }

    /**
     * With no base file the loop never runs: no merger call is made, and whatever has been
     * emitted is tail output drawn from the scanner's map.
     */
    lemma NoBaseFileIsTailOnly()
      requires Valid() && baseFile.None?
      ensures mergeCalls == []
      ensures emitted == drained && PartialDrain(emitted, initial)
      ensures records == initial - KeySet(emitted)
    {
    }
  }
}
