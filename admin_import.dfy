// The state of the CSV import page (frontend/src/pages/AdminImport.jsx): the
// parsed rows, the capped log, the concurrency setting and the importing
// flag, and the handlers that change them. Every `setState` call becomes an
// assignment to a field; the network is the sequence of upload outcomes the
// caller supplies, one per row of the batch.

module AdminImport {
  import opened JsValues
  import opened ImportRows

  /** `next.slice(-500)`. */
  const LogCap: nat := 500

  /** The initial value of the concurrency setting. */
  const DefaultConcurrency: real := 5.0

  /** `s.slice(-n)` for n > 0: drop entries from the front until at most `n` are left. */
  function LastN<T>(s: seq<T>, n: nat): (r: seq<T>)
    ensures |r| == if |s| <= n then |s| else n
  {
    if |s| <= n then s else LastN(s[1..], n)
  }

  /** What is kept is the tail of what was there: the last `n` entries, in order. */
  lemma {:induction false} LastNIsSuffix<T>(s: seq<T>, n: nat)
    ensures LastN(s, n) == s[|s| - |LastN(s, n)|..]
  {
    if |s| > n {
      LastNIsSuffix(s[1..], n);
      assert s[1..][|s| - 1 - n..] == s[|s| - n..];
    }
  }

  /** Capping after every append keeps exactly the last entries of the whole history. */
  lemma {:induction false} CapAfterEachAppend<T>(s: seq<T>, x: T, n: nat)
    ensures LastN(LastN(s, n) + [x], n) == LastN(s + [x], n)
  {
    if |s| > n {
      assert (s + [x])[1..] == s[1..] + [x];
      CapAfterEachAppend(s[1..], x, n);
    }
  }

  /** A log line without its `toLocaleTimeString()` prefix. */
  datatype LogEntry =
    | InvalidHeaders
    | ParsedRows(count: nat)
    | ParseError(message: string)
    | ImportStarted(count: nat, concurrency: real)
    | ImportFinished
    | RetryStarted(count: nat)
    | RetryFinished
    | UploadedRow(studentId: string)
    | UploadFailed(studentId: string, message: string)

  /** `payload.student_id || '(no id)'`. */
  function StudentLabel(row: Row): (id: string)
    ensures id != ""
    ensures "student_id" in row.data && row.data["student_id"] != "" ==> id == row.data["student_id"]
    ensures !("student_id" in row.data && row.data["student_id"] != "") ==> id == "(no id)"
  {
    if "student_id" in row.data && row.data["student_id"] != "" then row.data["student_id"] else "(no id)"
  }

  /** The line a worker logs once a row's upload has settled. */
  function UploadEntry(row: Row, o: UploadOutcome): LogEntry {
    match o
    case Created => UploadedRow(StudentLabel(row))
    case Rejected(re, m) => UploadFailed(StudentLabel(row), FailureMessage(re, m))
  }

  /** The lines of a batch, one per row, in the order the rows were taken. */
  function UploadLog(batch: seq<Row>, outcomes: seq<UploadOutcome>): (log: seq<LogEntry>)
    requires |batch| == |outcomes|
    ensures |log| == |batch|
    ensures forall i | 0 <= i < |batch| :: log[i] == UploadEntry(batch[i], outcomes[i])
  {
    if batch == [] then []
    else
      var n := |batch| - 1;
      UploadLog(batch[..n], outcomes[..n]) + [UploadEntry(batch[n], outcomes[n])]
  }

  /** The lines up to row `i` inclusive are the lines up to `i` followed by one more. */
  lemma UploadLogStep(batch: seq<Row>, outcomes: seq<UploadOutcome>, i: nat)
    requires |batch| == |outcomes| && i < |batch|
    ensures UploadLog(batch[..i + 1], outcomes[..i + 1])
         == UploadLog(batch[..i], outcomes[..i]) + [UploadEntry(batch[i], outcomes[i])]
  {
    assert batch[..i + 1][..i] == batch[..i] && outcomes[..i + 1][..i] == outcomes[..i];
  }

  /** What Papa.parse hands to `complete` or `error`; `fields` is `result.meta.fields`. */
  datatype ParseResult = Parsed(fields: Option<seq<string>>, data: seq<RawRow>) | ParseFailed(message: string)

  class ImportSession {
    var rows: seq<Row>
    var logLines: seq<LogEntry>
    var concurrency: real
    var importing: bool
    /** Every line appended since the log was last cleared. */
    ghost var history: seq<LogEntry>

    ghost predicate Valid()
      reads this
    {
      && logLines == LastN(history, LogCap)
      && 1.0 <= concurrency <= 20.0
      && UniqueIndices(rows)
    }

    constructor ()
      ensures Valid()
      ensures rows == [] && logLines == [] && history == []
      ensures concurrency == DefaultConcurrency && !importing
    {
      rows := [];
      logLines := [];
      concurrency := DefaultConcurrency;
      importing := false;
      history := [];
    }

    /** `appendLog`: append, then keep the last 500 lines. */
    method AppendLog(e: LogEntry)
      requires Valid()
      modifies this
      ensures Valid()
      ensures logLines == LastN(old(logLines) + [e], LogCap)
      ensures history == old(history) + [e]
      ensures rows == old(rows) && concurrency == old(concurrency) && importing == old(importing)
    {
      CapAfterEachAppend(history, e, LogCap);
      logLines := LastN(logLines + [e], LogCap);
      history := history + [e];
    }

    /** `resetState`. */
    method Reset()
      requires Valid()
      modifies this
      ensures Valid()
      ensures rows == [] && logLines == [] && history == [] && !importing
      ensures concurrency == old(concurrency)
    {
      rows := [];
      logLines := [];
      history := [];
      importing := false;
    }

    /** The concurrency input's `onChange`. */
    method SetConcurrency(input: Option<real>)
      requires Valid()
      modifies this
      ensures Valid()
      ensures concurrency == ClampConcurrency(input)
      ensures rows == old(rows) && logLines == old(logLines) && history == old(history) && importing == old(importing)
    {
      concurrency := ClampConcurrency(input);
    }

    /**
     * `handleParse` with Papa.parse's callbacks: without a file nothing
     * changes; otherwise the rows and the log are cleared, then `complete`
     * or `error` runs on what the parser reports.
     */
    method HandleParse(hasFile: bool, result: ParseResult)
      requires Valid()
      modifies this
      ensures Valid()
      ensures concurrency == old(concurrency) && importing == old(importing)
      ensures !hasFile ==> rows == old(rows) && logLines == old(logLines) && history == old(history)
      ensures hasFile && result.ParseFailed? ==> rows == [] && history == [ParseError(result.message)]
      ensures hasFile && result.Parsed? && !ValidateHeaders(result.fields.GetOr([])) ==>
        rows == [] && history == [InvalidHeaders]
      ensures hasFile && result.Parsed? && ValidateHeaders(result.fields.GetOr([])) ==>
        rows == ParseRows(result.data) && history == [ParsedRows(|result.data|)]
    {
      if !hasFile {
        return;
      }
      rows := [];
      logLines := [];
      history := [];
      if result.ParseFailed? {
        AppendLog(ParseError(result.message));
      } else {
        Complete(result.fields.GetOr([]), result.data);
      }
    }

    /** The `complete` callback: the rows are classified only when the required headers are present. */
    method Complete(headers: seq<string>, data: seq<RawRow>)
      requires Valid() && rows == [] && history == []
      modifies this
      ensures Valid()
      ensures concurrency == old(concurrency) && importing == old(importing)
      ensures !ValidateHeaders(headers) ==> rows == [] && history == [InvalidHeaders]
      ensures ValidateHeaders(headers) ==> rows == ParseRows(data) && history == [ParsedRows(|data|)]
    {
      if !ValidateHeaders(headers) {
        AppendLog(InvalidHeaders);
        rows := [];
      } else {
        rows := ParseRows(data);
        AppendLog(ParsedRows(|data|));
      }
    }

    /**
     * `uploadRows`: each row of the batch is marked uploading, posted, and
     * marked with its outcome; the workers take the rows in batch order.
     */
    method UploadRows(batch: seq<Row>, outcomes: seq<UploadOutcome>) returns (workers: nat)
      requires Valid() && |batch| == |outcomes|
      modifies this
      ensures Valid()
      ensures workers == WorkerCount(concurrency, |batch|)
      ensures rows == UploadAll(old(rows), batch, outcomes)
      ensures history == old(history) + UploadLog(batch, outcomes)
      ensures concurrency == old(concurrency) && importing == old(importing)
    {
      workers := WorkerCount(concurrency, |batch|);
      var i := 0;
      while i < |batch|
        invariant 0 <= i <= |batch|
        invariant Valid()
        invariant rows == UploadAll(old(rows), batch[..i], outcomes[..i])
        invariant history == old(history) + UploadLog(batch[..i], outcomes[..i])
        invariant concurrency == old(concurrency) && importing == old(importing)
      {
        UploadAllStep(old(rows), batch, outcomes, i);
        UploadLogStep(batch, outcomes, i);
        UploadOne(batch[i], outcomes[i]);
        i := i + 1;
      }
      assert batch[..i] == batch && outcomes[..i] == outcomes;
    }

    /** One iteration of `worker`: mark the row uploading, post it, then mark and log how it settled. */
    method UploadOne(row: Row, o: UploadOutcome)
      requires Valid()
      modifies this
      ensures Valid()
      ensures rows == UploadStep(old(rows), row, o)
      ensures history == old(history) + [UploadEntry(row, o)]
      ensures concurrency == old(concurrency) && importing == old(importing)
    {
      rows := UpdateRow(rows, row.index, MarkUploading);
      rows := UpdateRow(rows, row.index, OutcomeMark(o));
      AppendLog(UploadEntry(row, o));
    }

    /**
     * `handleStartImport`: the pending and failed rows, if there are any and
     * the confirmation is accepted, are uploaded between two log lines.
     */
    method StartImport(confirmed: bool, outcomes: seq<UploadOutcome>) returns (started: bool)
      requires Valid() && |outcomes| == |SelectForImport(rows)|
      modifies this
      ensures Valid()
      ensures concurrency == old(concurrency)
      ensures started <==> SelectForImport(old(rows)) != [] && confirmed
      ensures !started ==>
        rows == old(rows) && logLines == old(logLines) && history == old(history) && importing == old(importing)
      ensures started ==>
        var batch := SelectForImport(old(rows));
        && rows == UploadAll(old(rows), batch, outcomes)
        && history == old(history) + [ImportStarted(|batch|, concurrency)] + UploadLog(batch, outcomes) + [ImportFinished]
        && !importing
    {
      var batch := SelectForImport(rows);
      if batch == [] || !confirmed {
        return false;
      }
      importing := true;
      AppendLog(ImportStarted(|batch|, concurrency));
      var _ := UploadRows(batch, outcomes);
      AppendLog(ImportFinished);
      importing := false;
      started := true;
    }

    /** `handleRetryFailed`: the failed rows, if there are any, are uploaded again. */
    method RetryFailed(outcomes: seq<UploadOutcome>) returns (started: bool)
      requires Valid() && |outcomes| == |SelectForRetry(rows)|
      modifies this
      ensures Valid()
      ensures concurrency == old(concurrency)
      ensures started <==> SelectForRetry(old(rows)) != []
      ensures !started ==>
        rows == old(rows) && logLines == old(logLines) && history == old(history) && importing == old(importing)
      ensures started ==>
        var batch := SelectForRetry(old(rows));
        && rows == UploadAll(old(rows), batch, outcomes)
        && history == old(history) + [RetryStarted(|batch|)] + UploadLog(batch, outcomes) + [RetryFinished]
        && !importing
    {
      var batch := SelectForRetry(rows);
      if batch == [] {
        return false;
      }
      importing := true;
      AppendLog(RetryStarted(|batch|));
      var _ := UploadRows(batch, outcomes);
      AppendLog(RetryFinished);
      importing := false;
      started := true;
    }
  }
}
