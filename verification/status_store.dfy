/**
 * The statuses file of one folder: `load_statuses` reads it and reconciles
 * every stored label against the current status options, `save_statuses`
 * overwrites it with a whole record. The file system and the JSON library
 * are parameters: the state of the file is an input, the outcome of a
 * write is an input, and the JSON text is represented by what it parses to.
 */
module StatusStore {

  /** A JSON value as far as the reconciliation can tell: a string or anything else. */
  datatype JsonValue = JString(text: string) | JNonString

  /** The top-level JSON document: an object (keys are always strings) or some other value. */
  datatype Document = Object(entries: map<string, JsonValue>) | NotAnObject

  /**
   * The statuses file as `load_statuses` finds it: absent, present but not
   * readable as JSON (an I/O error, malformed or truncated text), or parsed.
   */
  datatype StatusFile = Missing | Unreadable | Parsed(doc: Document)

  /** What the operator is told. */
  datatype Notice = Quiet | Saved | Error

  /** How a write of the statuses file ends. */
  datatype WriteOutcome =
    | Written            // open, dump and close succeed
    | OpenFailed         // `open(..., "w")` raises: the file is untouched
    | WriteInterrupted   // `json.dump` raises after the file was truncated

  /** A filename-to-label record, the unit that is loaded, rebuilt and saved. */
  type Record = map<string, string>

  /** Every label in the record is one of the options. */
  predicate InVocabulary(record: Record, options: seq<string>)
  {
    forall f :: f in record ==> record[f] in options
  }

  /** The labels of a record as the JSON object `json.dump` writes. */
  function Encode(record: Record): (doc: Document)
    ensures doc.Object? && doc.entries.Keys == record.Keys
    ensures forall f :: f in record ==> doc.entries[f] == JString(record[f])
  {
    Object(map f | f in record :: JString(record[f]))
  }

  /** The stored value `v` is kept by reconciliation: it is a string among the options. */
  predicate Keeps(v: JsonValue, options: seq<string>)
  {
    v.JString? && v.text in options
  }

  /**
   * The loop of `load_statuses`: keys are left alone, a string value that is
   * among the options is kept, and every other value becomes the first
   * option.
   */
  function Reconcile(entries: map<string, JsonValue>, options: seq<string>): (r: Record)
    requires |options| > 0
    ensures r.Keys == entries.Keys
    ensures InVocabulary(r, options)
    ensures forall f :: f in entries && Keeps(entries[f], options) ==> r[f] == entries[f].text
    ensures forall f :: f in entries && !Keeps(entries[f], options) ==> r[f] == options[0]
  {
    map f | f in entries :: if Keeps(entries[f], options) then entries[f].text else options[0]
  }

  /** Reconciling a record already in the vocabulary gives the record back. */
  lemma ReconcileKeepsValidRecord(record: Record, options: seq<string>)
    requires |options| > 0 && InVocabulary(record, options)
    ensures Reconcile(Encode(record).entries, options) == record
  {
  }

  /** Reconciliation is idempotent: a second pass changes nothing. */
  lemma ReconcileIdempotent(entries: map<string, JsonValue>, options: seq<string>)
    requires |options| > 0
    ensures Reconcile(Encode(Reconcile(entries, options)).entries, options) == Reconcile(entries, options)
  {
    ReconcileKeepsValidRecord(Reconcile(entries, options), options);
  }

  /**
   * `load_statuses`: the reconciled record and whether an error was
   * reported. A missing file gives the empty record quietly; a file that
   * cannot be read, or whose JSON is not an object, gives the empty record
   * and one error. With no options, `status_options[0]` raises inside the
   * `try` as soon as there is an entry to replace, which is again the empty
   * record and one error.
   */
  function Load(file: StatusFile, options: seq<string>): (r: (Record, Notice))
    ensures InVocabulary(r.0, options)
    ensures r.1 == Quiet || r.1 == Error
    ensures r.1 == Error ==> r.0 == map[]
    ensures file.Missing? ==> r == (map[], Quiet)
    ensures file.Unreadable? || file == Parsed(NotAnObject) ==> r == (map[], Error)
    ensures file.Parsed? && file.doc.Object? && |options| > 0 ==>
      r == (Reconcile(file.doc.entries, options), Quiet)
    ensures file.Parsed? && file.doc.Object? && |options| == 0 ==>
      r.0 == map[] && (r.1 == Error <==> |file.doc.entries| > 0)
  {
    match file
    case Missing => (map[], Quiet)
    case Unreadable => (map[], Error)
    case Parsed(NotAnObject) => (map[], Error)
    case Parsed(Object(entries)) =>
      if |entries| == 0 then (map[], Quiet)
      else if |options| == 0 then (map[], Error)
      else (Reconcile(entries, options), Quiet)
  }

  /**
   * `save_statuses`: the file afterwards and the notice shown. A completed
   * write replaces the file by the record alone; a failed open leaves the
   * previous file; an interrupted dump leaves a truncated file that no
   * longer parses.
   */
  function Save(record: Record, before: StatusFile, outcome: WriteOutcome): (r: (StatusFile, Notice))
    ensures r.1 == Saved <==> outcome.Written?
    ensures r.1 == Error <==> !outcome.Written?
    ensures outcome.Written? ==> r.0 == Parsed(Encode(record))
    ensures outcome.OpenFailed? ==> r.0 == before
    ensures outcome.WriteInterrupted? ==> r.0 == Unreadable
  {
    match outcome
    case Written => (Parsed(Encode(record)), Saved)
    case OpenFailed => (before, Error)
    case WriteInterrupted => (Unreadable, Error)
  }

  /**
   * Round trip: a record that was written is read back quietly; its labels
   * that are still options come back unchanged and the others as the first
   * option.
   */
  lemma SaveThenLoad(record: Record, before: StatusFile, options: seq<string>)
    requires |options| > 0
    ensures Load(Save(record, before, Written).0, options) == (Reconcile(Encode(record).entries, options), Quiet)
  {
  }

  /** Round trip, exact form: a record within the vocabulary is read back as it was written. */
  lemma {:induction false} SaveThenLoadExact(record: Record, before: StatusFile, options: seq<string>)
    requires InVocabulary(record, options)
    ensures Load(Save(record, before, Written).0, options) == (record, Quiet)
  {
    if |record| == 0 {
      assert record == map[];
    } else {
      var f :| f in record;
      assert |options| > 0;
      ReconcileKeepsValidRecord(record, options);
    }
  }

  /** Saving the empty record and loading it again gives the empty record, whatever the options. */
  lemma SaveEmptyThenLoad(before: StatusFile, options: seq<string>)
    ensures Load(Save(map[], before, Written).0, options) == (map[], Quiet)
  {
  }

  /** The concrete case of a stale label: it becomes the first option, the others are untouched. */
  lemma LoadScenario()
    ensures Load(Parsed(Object(map["a.png" := JString("Blocked"), "b.png" := JString("Unknown")])),
                 ["OK", "Blocked"])
         == (map["a.png" := "Blocked", "b.png" := "OK"], Quiet)
  {
    var entries := map["a.png" := JString("Blocked"), "b.png" := JString("Unknown")];
    assert "Unknown" != "OK" && "Unknown" != "Blocked";
    assert Keeps(entries["a.png"], ["OK", "Blocked"]);
    assert !Keeps(entries["b.png"], ["OK", "Blocked"]);
    assert "a.png" in entries;
    var r := Reconcile(entries, ["OK", "Blocked"]);
    assert r.Keys == {"a.png", "b.png"};
    assert r == map["a.png" := "Blocked", "b.png" := "OK"];
  }
}
