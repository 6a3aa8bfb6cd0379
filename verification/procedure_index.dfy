/** The procedure-index endpoints of the backend (backend/src/main.py): reading an
    epoch's `procedures_with_lines.json` and normalising its mixed entries into
    names, or into name and content-hash records. The selected directory's files,
    JSON decoding and SHA-256 are parameters. */
module ProcedureIndex {
  import opened Outcome

  /** A decoded JSON value, as `json.load` returns it. An object keeps its keys in
      document order and is taken as already free of duplicate keys. */
  datatype Json =
    | JNull
    | JBool(b: bool)
    | JNumber(n: int)
    | JString(s: string)
    | JArray(items: seq<Json>)
    | JObject(fields: seq<(string, Json)>)

  type Bytes = seq<bv8>

  /** A path as its components; `dir / "x"` appends one. */
  type Path = seq<string>

  /** The existing files under the data directory, with their contents. */
  type FileSystem = map<Path, Bytes>

  /** `hashlib.sha256(data).hexdigest()` */
  type Sha256 = Bytes -> string

  /** `json.load`: the decoded document, or the decoder's complaint. */
  type JsonDecoder = Bytes -> Result<Json, string>

  /** How a handler fails: an `HTTPException`, or any other exception (a server error). */
  datatype ApiError = HttpError(status: int, detail: string) | Crash(reason: string)

  /** Length of a SHA-256 hex digest. */
  const DigestLength: nat := 64

  /** `compute_hash(file_path)`: the digest of the file's bytes, or "" when it is missing. */
  function ComputeHash(fs: FileSystem, sha256: Sha256, path: Path): (digest: string)
    ensures path !in fs ==> digest == ""
    ensures path in fs ==> digest == sha256(fs[path])
  {
    if path !in fs then "" else sha256(fs[path])
  }

  /** With a real hex digest, an empty hash means exactly that the file is missing. */
  lemma EmptyHashIffMissing(fs: FileSystem, sha256: Sha256, path: Path)
    requires forall data :: |sha256(data)| == DigestLength
    ensures ComputeHash(fs, sha256, path) == "" <==> path !in fs
  {
    if path in fs {
      assert |sha256(fs[path])| == DigestLength;
    }
  }

  /** The values `for proc in procedures_data` visits: a list's items, an object's keys,
      a string's characters; any other value is not iterable. */
  function Entries(doc: Json): (entries: Result<seq<Json>, ApiError>)
    ensures doc.JArray? ==> entries == Success(doc.items)
    ensures doc.JObject? ==>
      (entries.Success? && |entries.value| == |doc.fields| &&
       forall i :: 0 <= i < |doc.fields| ==> entries.value[i] == JString(doc.fields[i].0))
    ensures doc.JString? ==>
      (entries.Success? && |entries.value| == |doc.s| &&
       forall i :: 0 <= i < |doc.s| ==> entries.value[i] == JString([doc.s[i]]))
    ensures entries.Failure? <==> !(doc.JArray? || doc.JObject? || doc.JString?)
  {
    match doc
    case JArray(items) => Success(items)
    case JObject(fields) =>
      Success(seq(|fields|, i requires 0 <= i < |fields| => JString(fields[i].0)))
    case JString(s) =>
      Success(seq(|s|, i requires 0 <= i < |s| => JString([s[i]])))
    case _ => Failure(Crash("object is not iterable"))
  }

  /** `proc[key]` on a dict, when `key in proc`. */
  function Field(fields: seq<(string, Json)>, key: string): (v: Option<Json>)
    ensures v.Some? <==> exists i :: 0 <= i < |fields| && fields[i].0 == key
    ensures v.Some? ==> exists i :: 0 <= i < |fields| && fields[i] == (key, v.value)
  {
    if |fields| == 0 then None
    else if fields[0].0 == key then Some(fields[0].1)
    else
      var v := Field(fields[1..], key);
      assert forall i :: 0 <= i < |fields| - 1 ==> fields[1..][i] == fields[i + 1];
      v
  }

  /** The name an entry contributes to the record loop: a dict's `"name"` value, a
      string itself; anything else is skipped (`None`). */
  function EntryName(entry: Json): Option<Json> {
    match entry
    case JObject(fields) => Field(fields, "name")
    case JString(_) => Some(entry)
    case _ => None
  }

  /** One record of the first `get_procedures`. */
  datatype ProcedureRecord = ProcedureRecord(name: string, beforeHash: string, afterHash: string)

  function IrFile(epochDir: Path, name: string, side: string): Path {
    epochDir + ["procedures", name, side + ".ir"]
  }

  /** Every name the entries contribute is a string, so joining it onto a path works. */
  ghost predicate NamesAreStrings(entries: seq<Json>) {
    forall e :: e in entries && EntryName(e).Some? ==> EntryName(e).value.JString?
  }

  /** The record loop of the first `get_procedures`: one record per accepted entry, in
      order, hashing the entry's before/after IR files. A name that is not a string makes
      `epoch_dir / "procedures" / proc_name` raise. */
  function NormalizeRecords(entries: seq<Json>, fs: FileSystem, sha256: Sha256, epochDir: Path): (r: Result<seq<ProcedureRecord>, ApiError>)
    ensures r.Success? <==> NamesAreStrings(entries)
    ensures r.Success? ==> |r.value| <= |entries|
    ensures r.Success? ==> forall rec :: rec in r.value ==>
      rec.beforeHash == ComputeHash(fs, sha256, IrFile(epochDir, rec.name, "before")) &&
      rec.afterHash == ComputeHash(fs, sha256, IrFile(epochDir, rec.name, "after"))
  {
    if |entries| == 0 then Success([])
    else
      assert forall e :: e in entries[1..] ==> e in entries;
      assert entries == [entries[0]] + entries[1..];
      match EntryName(entries[0])
      case None => NormalizeRecords(entries[1..], fs, sha256, epochDir)
      case Some(JString(name)) =>
        var rest :- NormalizeRecords(entries[1..], fs, sha256, epochDir);
        var record := ProcedureRecord(
          name,
          ComputeHash(fs, sha256, IrFile(epochDir, name, "before")),
          ComputeHash(fs, sha256, IrFile(epochDir, name, "after")));
        Success([record] + rest)
      case Some(_) => Failure(Crash("unsupported operand type(s) for /"))
  }

  /** The loop of the second `get_procedures`: strings kept, dicts with `"name"` give
      that value (whatever its type), anything else skipped. */
  function NormalizeNames(entries: seq<Json>): (names: seq<Json>)
    ensures |names| <= |entries|
  {
    if |entries| == 0 then []
    else
      var head :=
        match entries[0]
        case JString(_) => [entries[0]]
        case JObject(fields) => (match Field(fields, "name") case Some(v) => [v] case None => [])
        case _ => [];
      head + NormalizeNames(entries[1..])
  }

  /** The names loop is a filter-map: it works entry by entry and keeps input order. */
  lemma {:induction false} NormalizeNamesAppend(a: seq<Json>, b: seq<Json>)
    ensures NormalizeNames(a + b) == NormalizeNames(a) + NormalizeNames(b)
  {
    if |a| == 0 {
      assert a + b == b;
    } else {
      assert (a + b)[0] == a[0];
      assert (a + b)[1..] == a[1..] + b;
      NormalizeNamesAppend(a[1..], b);
    }
  }

  /** What one entry contributes to the names list. */
  lemma NormalizeNamesOfEntry(entry: Json)
    ensures entry.JString? ==> NormalizeNames([entry]) == [entry]
    ensures entry.JObject? && Field(entry.fields, "name").Some? ==>
      NormalizeNames([entry]) == [Field(entry.fields, "name").value]
    ensures !entry.JString? && !(entry.JObject? && Field(entry.fields, "name").Some?) ==>
      NormalizeNames([entry]) == []
  {
    assert [entry][1..] == [];
  }

  function RecordNames(records: seq<ProcedureRecord>): (names: seq<Json>)
    ensures |names| == |records|
    ensures forall i :: 0 <= i < |records| ==> names[i] == JString(records[i].name)
  {
    seq(|records|, i requires 0 <= i < |records| => JString(records[i].name))
  }

  /** Whenever the record loop succeeds, the names loop yields exactly its names, in the same order. */
  lemma {:induction false} NamesMatchRecords(entries: seq<Json>, fs: FileSystem, sha256: Sha256, epochDir: Path)
    requires NormalizeRecords(entries, fs, sha256, epochDir).Success?
    ensures NormalizeNames(entries) == RecordNames(NormalizeRecords(entries, fs, sha256, epochDir).value)
  {
    if |entries| > 0 {
      NamesMatchRecords(entries[1..], fs, sha256, epochDir);
    }
  }

  const IndexFileName: string := "procedures_with_lines.json"

  /** The decoded entries of an epoch's index file, or the failure reading it causes. */
  function ReadIndex(fs: FileSystem, dataDir: Path, epoch: string, decode: JsonDecoder): (r: Result<seq<Json>, ApiError>)
    ensures dataDir + [epoch, IndexFileName] !in fs ==>
      r == Failure(HttpError(404, "procedures_with_lines.json not found for epoch " + epoch))
    ensures var file := dataDir + [epoch, IndexFileName];
      file in fs && decode(fs[file]).Failure? ==> r.Failure? && r.error.Crash?
    ensures var file := dataDir + [epoch, IndexFileName];
      file in fs && decode(fs[file]).Success? ==> r == Entries(decode(fs[file]).value)
  {
    var file := dataDir + [epoch, IndexFileName];
    if file !in fs then Failure(HttpError(404, "procedures_with_lines.json not found for epoch " + epoch))
    else
      match decode(fs[file])
      case Failure(complaint) => Failure(Crash(complaint))
      case Success(doc) => Entries(doc)
  }

  /** The first `get_procedures`, registered for `/ir/{epoch}/procedures`. */
  function GetProcedureRecords(fs: FileSystem, dataDir: Path, epoch: string, decode: JsonDecoder, sha256: Sha256): (r: Result<seq<ProcedureRecord>, ApiError>)
    ensures ReadIndex(fs, dataDir, epoch, decode).Failure? ==> r == Failure(ReadIndex(fs, dataDir, epoch, decode).error)
    ensures ReadIndex(fs, dataDir, epoch, decode).Success? ==>
      var entries := ReadIndex(fs, dataDir, epoch, decode).value;
      && (r.Success? <==> NamesAreStrings(entries))
      && (r.Success? ==> RecordNames(r.value) == NormalizeNames(entries))
      && (r.Success? ==> forall rec :: rec in r.value ==>
            rec.beforeHash == ComputeHash(fs, sha256, IrFile(dataDir + [epoch], rec.name, "before")) &&
            rec.afterHash == ComputeHash(fs, sha256, IrFile(dataDir + [epoch], rec.name, "after")))
  {
    var entries :- ReadIndex(fs, dataDir, epoch, decode);
    var records := NormalizeRecords(entries, fs, sha256, dataDir + [epoch]);
    if records.Success? then
      NamesMatchRecords(entries, fs, sha256, dataDir + [epoch]);
      records
    else
      records
  }

  /** The second `get_procedures`, registered for `/procedures/{epoch}`. */
  function GetProcedureNames(fs: FileSystem, dataDir: Path, epoch: string, decode: JsonDecoder): (r: Result<seq<Json>, ApiError>)
    ensures ReadIndex(fs, dataDir, epoch, decode).Failure? ==> r == Failure(ReadIndex(fs, dataDir, epoch, decode).error)
    ensures ReadIndex(fs, dataDir, epoch, decode).Success? ==>
      r == Success(NormalizeNames(ReadIndex(fs, dataDir, epoch, decode).value))
  {
    var entries :- ReadIndex(fs, dataDir, epoch, decode);
    Success(NormalizeNames(entries))
  }

  /** Where the records endpoint answers, the names endpoint answers with its names;
      it also answers where a non-string name makes the records endpoint fail. */
  lemma NamesEndpointMatchesRecords(fs: FileSystem, dataDir: Path, epoch: string, decode: JsonDecoder, sha256: Sha256)
    requires ReadIndex(fs, dataDir, epoch, decode).Success?
    ensures GetProcedureNames(fs, dataDir, epoch, decode).Success?
    ensures GetProcedureRecords(fs, dataDir, epoch, decode, sha256).Success? ==>
      GetProcedureNames(fs, dataDir, epoch, decode).value ==
        RecordNames(GetProcedureRecords(fs, dataDir, epoch, decode, sha256).value)
  {
    var entries := ReadIndex(fs, dataDir, epoch, decode).value;
    if NormalizeRecords(entries, fs, sha256, dataDir + [epoch]).Success? {
      NamesMatchRecords(entries, fs, sha256, dataDir + [epoch]);
    }
  }

  function RecordJson(record: ProcedureRecord): Json {
    JObject([("name", JString(record.name)), ("beforeHash", JString(record.beforeHash)), ("afterHash", JString(record.afterHash))])
  }

  lemma RecordJsonIsRecord(record: ProcedureRecord)
    ensures IsRecordJson(RecordJson(record))
  {
    var fields := RecordJson(record).fields;
    assert fields[1..][1..][0].0 == "afterHash";
  }

  /** A JSON object carrying string `name`, `beforeHash` and `afterHash` fields. */
  predicate IsRecordJson(v: Json) {
    && v.JObject?
    && Field(v.fields, "name").Some? && Field(v.fields, "name").value.JString?
    && Field(v.fields, "beforeHash").Some? && Field(v.fields, "beforeHash").value.JString?
    && Field(v.fields, "afterHash").Some? && Field(v.fields, "afterHash").value.JString?
  }

  /** The response body of `/ir/{epoch}/procedures`. */
  function RecordsResponse(fs: FileSystem, dataDir: Path, epoch: string, decode: JsonDecoder, sha256: Sha256): Result<Json, ApiError> {
    var records :- GetProcedureRecords(fs, dataDir, epoch, decode, sha256);
    Success(JArray(seq(|records|, i requires 0 <= i < |records| => RecordJson(records[i]))))
  }

  /** `get_procedures_with_lines` as written: it calls the module-level name
      `get_procedures`, which by the time any request runs is bound to the second,
      names-only definition. */
  function ProceduresWithLinesAsWritten(fs: FileSystem, dataDir: Path, epoch: string, decode: JsonDecoder, sha256: Sha256): (r: Result<Json, ApiError>)
    ensures r.Failure? <==> ReadIndex(fs, dataDir, epoch, decode).Failure?
    ensures ReadIndex(fs, dataDir, epoch, decode).Success? ==>
      r == Success(JArray(NormalizeNames(ReadIndex(fs, dataDir, epoch, decode).value)))
  {
    var names :- GetProcedureNames(fs, dataDir, epoch, decode);
    Success(JArray(names))
  }

  /** An index holding the single string entry "f" shows the difference: the as-written
      route answers `["f"]`, while `/ir/{epoch}/procedures` answers a record. */
  lemma ProceduresWithLinesAsWrittenDiffers(fs: FileSystem, dataDir: Path, epoch: string, decode: JsonDecoder, sha256: Sha256)
    requires dataDir + [epoch, IndexFileName] in fs
    requires decode(fs[dataDir + [epoch, IndexFileName]]) == Success(JArray([JString("f")]))
    ensures ProceduresWithLinesAsWritten(fs, dataDir, epoch, decode, sha256) == Success(JArray([JString("f")]))
    ensures RecordsResponse(fs, dataDir, epoch, decode, sha256).Success?
    ensures ProceduresWithLinesAsWritten(fs, dataDir, epoch, decode, sha256) != RecordsResponse(fs, dataDir, epoch, decode, sha256)
  {
    var entries := [JString("f")];
    assert ReadIndex(fs, dataDir, epoch, decode) == Success(entries);
    NormalizeNamesOfEntry(JString("f"));
    assert entries[1..] == [];
    var records := GetProcedureRecords(fs, dataDir, epoch, decode, sha256).value;
    assert |records| == 1;
    var response := RecordsResponse(fs, dataDir, epoch, decode, sha256).value;
    assert response.items[0] == RecordJson(records[0]);
  }

  /** `get_procedures_with_lines` as its docstring promises: the response of
      `/ir/{epoch}/procedures`. Every element of a successful response is a record. */
  function ProceduresWithLines(fs: FileSystem, dataDir: Path, epoch: string, decode: JsonDecoder, sha256: Sha256): (r: Result<Json, ApiError>)
    ensures r.Success? ==> r.value.JArray? && forall v :: v in r.value.items ==> IsRecordJson(v)
    ensures r.Failure? <==> GetProcedureRecords(fs, dataDir, epoch, decode, sha256).Failure?
    ensures var records := GetProcedureRecords(fs, dataDir, epoch, decode, sha256);
      records.Success? ==>
        && |r.value.items| == |records.value|
        && forall i :: 0 <= i < |records.value| ==> r.value.items[i] == RecordJson(records.value[i])
  {
    var r := RecordsResponse(fs, dataDir, epoch, decode, sha256);
    forall record: ProcedureRecord {
      RecordJsonIsRecord(record);
    }
    r
  }

  /** The `"name"` field of a response element; `null` where it has none. */
  function RecordName(v: Json): Json {
    if v.JObject? && Field(v.fields, "name").Some? then Field(v.fields, "name").value else JNull
  }

  /** The `"name"` field of each response element, in order. */
  function ResponseNames(items: seq<Json>): (names: seq<Json>)
    ensures |names| == |items|
    ensures forall i :: 0 <= i < |items| ==> names[i] == RecordName(items[i])
  {
    seq(|items|, i requires 0 <= i < |items| => RecordName(items[i]))
  }

  /** The corrected route lists the index's procedures: the names of its records, in
      order, are what the names loop gives for the index entries. */
  lemma ProceduresWithLinesNames(fs: FileSystem, dataDir: Path, epoch: string, decode: JsonDecoder, sha256: Sha256)
    requires ProceduresWithLines(fs, dataDir, epoch, decode, sha256).Success?
    ensures ReadIndex(fs, dataDir, epoch, decode).Success?
    ensures ResponseNames(ProceduresWithLines(fs, dataDir, epoch, decode, sha256).value.items) ==
      NormalizeNames(ReadIndex(fs, dataDir, epoch, decode).value)
  {
    var records := GetProcedureRecords(fs, dataDir, epoch, decode, sha256).value;
    var items := ProceduresWithLines(fs, dataDir, epoch, decode, sha256).value.items;
    forall i | 0 <= i < |records|
      ensures RecordName(items[i]) == JString(records[i].name)
    {
      assert items[i] == RecordJson(records[i]);
    }
    assert ResponseNames(items) == RecordNames(records);
  }
}
