/**
  The detection log file shared by the detection screen (app.py) and the
  dashboard (logs.py). The file is an abstract value: absent, blank (empty
  or only whitespace), not parseable as JSON, or a JSON array of records.
 */
module LogStore {

  /** One logged sighting. `timestamp` is the logging time in whole seconds
      (the `%Y-%m-%d %H:%M:%S` text of the file, as a count of seconds). */
  datatype Record = Record(timestamp: int, className: string, category: string, confidence: real)

  datatype LogFile = Missing | Blank | Corrupt | Valid(records: seq<Record>)

  /** The records a self-healing read sees: anything but a valid array reads as empty. */
  function Contents(f: LogFile): (r: seq<Record>)
    ensures f.Valid? ==> r == f.records
    ensures !f.Valid? ==> r == []
  {
    if f.Valid? then f.records else []
  }

  /** `initialize_log_file`: a missing, blank or unparseable file becomes `[]`;
      a parseable one is left alone. */
  function InitializeLogFile(f: LogFile): (r: LogFile)
    ensures r.Valid?
    ensures Contents(r) == Contents(f)
    ensures f.Valid? ==> r == f
  {
    if f.Valid? then f else Valid([])
  }

  /** Initialising an initialised file changes nothing. */
  lemma InitializeIdempotent(f: LogFile)
    ensures InitializeLogFile(InitializeLogFile(f)) == InitializeLogFile(f)
  {
  }

  /** The read-append-write step of `log_detection` on the file alone. A missing
      file makes the read raise, so nothing is written; a blank or unparseable
      one is read as empty. */
  function Append(f: LogFile, rec: Record): (r: LogFile)
    ensures f.Missing? ==> r == f
    ensures !f.Missing? ==> r.Valid? && r.records == Contents(f) + [rec]
  {
    match f
    case Missing => Missing
    case Blank => Valid([rec])
    case Corrupt => Valid([rec])
    case Valid(rs) => Valid(rs + [rec])
  }

  /** Appending records one after another. */
  function AppendAll(f: LogFile, recs: seq<Record>): LogFile
    decreases |recs|
  {
    if |recs| == 0 then f else AppendAll(Append(f, recs[0]), recs[1..])
  }

  /** Appending to a present file keeps every earlier record and adds the new
      ones after them, in order. */
  lemma {:induction false} AppendAllContents(f: LogFile, recs: seq<Record>)
    requires !f.Missing?
    ensures Contents(AppendAll(f, recs)) == Contents(f) + recs
    decreases |recs|
  {
    if |recs| == 0 {
      assert Contents(f) + recs == Contents(f);
    } else {
      var g := Append(f, recs[0]);
      AppendAllContents(g, recs[1..]);
      assert Contents(g) + recs[1..] == Contents(f) + recs;
    }
  }

  /** N appends to a freshly initialised file load back as exactly those N
      records, in insertion order. */
  lemma AppendToInitialized(f: LogFile, recs: seq<Record>)
    requires !f.Valid?
    ensures Contents(AppendAll(InitializeLogFile(f), recs)) == recs
  {
    AppendAllContents(InitializeLogFile(f), recs);
  }
}
