/** Searching the index table of a micro log, batch by batch. */
module CoffeeSearch {
  import opened Bytes
  import opened CoffeeLayout
  import opened CoffeeLog
  import opened CoffeeFiles

  /** The last entry for `region` in the batch of entries from `first` to `end`, or -1. */
  method SearchBatch(log: seq<Byte>, first: nat, end: nat, region: nat) returns (i: int)
    requires first <= end && 2 * end <= |log|
    ensures -1 <= i < end - first
    ensures i >= 0 ==> NewestRecord(log, end, region) == first + i
    ensures i < 0 ==> NewestRecord(log, end, region) == NewestRecord(log, first, region)
  {
    i := end - first - 1;
    while i >= 0
      invariant -1 <= i < end - first
      invariant NewestRecord(log, first + i + 1, region) == NewestRecord(log, end, region)
    {
      if U16(log, 2 * (first + i)) - 1 == region {
        return;
      }
      i := i - 1;
    }
  }

  /** `get_record_index`: the table is read backwards, a batch at a time. */
  method GetRecordIndex(log: seq<Byte>, searchRecords: nat, region: nat) returns (matchIndex: int)
    requires 2 * searchRecords <= |log|
    ensures matchIndex == NewestRecord(log, searchRecords, region)
  {
    var base := searchRecords;
    var batchSize := if searchRecords > LOG_TABLE_LIMIT then LOG_TABLE_LIMIT else searchRecords;
    var processed := 0;
    matchIndex := -1;
    while processed < searchRecords && matchIndex < 0
      invariant 0 <= processed <= searchRecords && base == searchRecords - processed
      invariant processed < searchRecords ==> batchSize >= 1
      invariant matchIndex < 0 ==>
        matchIndex == -1 && NewestRecord(log, base, region) == NewestRecord(log, searchRecords, region)
      invariant matchIndex >= 0 ==> matchIndex == NewestRecord(log, searchRecords, region)
    {
      if batchSize + processed > searchRecords {
        batchSize := searchRecords - processed;
      }
      base := base - batchSize;
      var i := SearchBatch(log, base, base + batchSize, region);
      if i >= 0 {
        matchIndex := searchRecords - processed - (batchSize - i);
      }
      processed := processed + batchSize;
    }
  }

  /** Where the last batch of a scan over `records` entries starts. */
  ghost function LastBatch(records: nat, from: nat): (start: nat)
    requires from <= records
    ensures from <= start <= records
    ensures records - from > LOG_TABLE_LIMIT <==> start > from
    decreases records - from
  {
    if records - from > LOG_TABLE_LIMIT then LastBatch(records, from + LOG_TABLE_LIMIT) else from
  }

  /** Of the last batch, what the scan of `find_next_record` ends with. */
  ghost predicate ScanResult(log: seq<Byte>, start: nat, end: nat, r: nat)
    requires 2 * end <= |log|
  {
    || (start <= r < end && U16(log, 2 * r) == 0 && forall k :: start <= k < r ==> U16(log, 2 * k) != 0)
    || (r == end - start && forall k :: start <= k < end ==> U16(log, 2 * k) != 0)
  }

  lemma EntryUsed(log: seq<Byte>, end: nat, count: nat, k: nat)
    requires LogCount(log, end, count) && k < end
    ensures U16(log, 2 * k) == 0 <==> count <= k
  {
  }

  lemma ScanFinds(log: seq<Byte>, start: nat, end: nat, r: nat, count: nat)
    requires start < end && LogCount(log, end, count) && ScanResult(log, start, end, r)
    ensures r == count <==> start == 0 || start <= count < end
  {
    EntryUsed(log, end, count, start);
    if count < end {
      EntryUsed(log, end, count, count);
    }
    if r < end {
      EntryUsed(log, end, count, r);
    }
  }

  /**
   `find_next_record`. The scan does not stop at the batch that has the first unused entry, and a last batch
   without one gives its own length: the answer is right exactly when the table is read in one batch or its
   first unused entry is in the last one.
   */
  method FindNextRecord(recordCount: int, log: seq<Byte>, logRecords: nat) returns (logRecord: int)
    requires 2 * logRecords <= |log|
    ensures recordCount >= 0 ==> logRecord == recordCount
    ensures recordCount < 0 ==> forall count: nat :: LogCount(log, logRecords, count) ==>
      (logRecord == count <==> logRecords <= LOG_TABLE_LIMIT || LastBatch(logRecords, 0) <= count < logRecords)
  {
    if recordCount >= 0 {
      return recordCount;
    }
    var preferred := if logRecords > LOG_TABLE_LIMIT then LOG_TABLE_LIMIT else logRecords;
    logRecord := logRecords;
    var processed := 0;
    while processed < logRecords
      invariant 0 <= processed <= logRecords
      invariant processed < logRecords ==> LastBatch(logRecords, processed) == LastBatch(logRecords, 0)
      invariant processed == 0 ==> logRecord == logRecords
      invariant 0 < processed == logRecords ==>
        LastBatch(logRecords, 0) < logRecords && logRecord >= 0 &&
        ScanResult(log, LastBatch(logRecords, 0), logRecords, logRecord)
    {
      var batchSize := if logRecords - processed >= preferred then preferred else logRecords - processed;
      logRecord := 0;
      while logRecord < batchSize
        invariant 0 <= logRecord <= batchSize && processed + batchSize <= logRecords
        invariant forall k :: processed <= k < processed + logRecord ==> U16(log, 2 * k) != 0
      {
        if U16(log, 2 * (processed + logRecord)) == 0 {
          logRecord := logRecord + processed;
          break;
        }
        logRecord := logRecord + 1;
      }
      assert ScanResult(log, processed, processed + batchSize, logRecord);
      processed := processed + batchSize;
    }
    if logRecords > 0 {
      forall count: nat | LogCount(log, logRecords, count)
        ensures logRecord == count <==> LastBatch(logRecords, 0) == 0 || LastBatch(logRecords, 0) <= count < logRecords
      {
        ScanFinds(log, LastBatch(logRecords, 0), logRecords, logRecord, count);
      }
    }
  }

  /** An empty table of two batches: its first record is taken to be somewhere else. */
  method EmptyTableMisread() returns (log: seq<Byte>, logRecords: nat, logRecord: int)
    ensures LogCount(log, logRecords, 0) && logRecord != 0
  {
    logRecords := 2 * LOG_TABLE_LIMIT;
    log := ZeroBytes(2 * logRecords);
    forall k | 0 <= k < logRecords ensures U16(log, 2 * k) == 0 {
    }
    assert LogCount(log, logRecords, 0);
    assert LastBatch(logRecords, 0) == LastBatch(logRecords, LOG_TABLE_LIMIT) == LOG_TABLE_LIMIT;
    logRecord := FindNextRecord(-1, log, logRecords);
  }
}
