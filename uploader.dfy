/** The result uploader: it drains the delivery queue one record at a time, parses each record by its
    data type, shapes the payload the central server expects and posts it, retrying failed deliveries
    with a linearly growing pause. */
module Uploader {
  import opened Wrappers
  import opened Bytes
  import opened Text
  import opened Clock
  import opened Records
  import Hl7Parser
  import DicomParser
  import FileWatcher

  // ---------------------------------------------------------------- endpoint and headers

  /** The URL every payload is posted to: the server URL without trailing slashes, then the path. */
  function Endpoint(serverUrl: string): string {
    RStripChar(serverUrl, '/') + "/equipos/recibir-json"
  }

  /** Trailing slashes on the configured server URL make no difference to the endpoint. */
  lemma {:induction false} EndpointIgnoresTrailingSlashes(serverUrl: string, n: nat)
    ensures Endpoint(serverUrl + Repeat('/', n)) == Endpoint(serverUrl)
    decreases n
  {
    if n > 0 {
      var s := serverUrl + Repeat('/', n);
      assert s[..|s| - 1] == serverUrl + Repeat('/', n - 1);
      EndpointIgnoresTrailingSlashes(serverUrl, n - 1);
    } else {
      assert serverUrl + Repeat('/', n) == serverUrl;
    }
  }

  /** The endpoint is the stripped server URL followed by the fixed receiving path. */
  lemma EndpointPath(serverUrl: string)
    ensures var e := Endpoint(serverUrl);
      && |e| == |RStripChar(serverUrl, '/')| + 21
      && e[..|e| - 21] == RStripChar(serverUrl, '/') && e[|e| - 21..] == "/equipos/recibir-json"
  {
  }

  /** The request headers: the JSON content type, and a bearer token when an API key is configured. */
  function Headers(apiKey: Option<string>): seq<(string, string)> {
    [("Content-Type", "application/json")]
    + (if apiKey.Some? && apiKey.value != "" then [("Authorization", "Bearer " + apiKey.value)] else [])
  }

  /** There is an `Authorization` header exactly when a non-empty key is configured, and it carries the
      key as a bearer token. */
  lemma AuthorizationIff(apiKey: Option<string>)
    ensures (exists h :: h in Headers(apiKey) && h.0 == "Authorization") <==> apiKey.Some? && apiKey.value != ""
    ensures forall h :: h in Headers(apiKey) && h.0 == "Authorization" ==> h.1 == "Bearer " + apiKey.value
    ensures ("Content-Type", "application/json") in Headers(apiKey)
  {
    var hs := Headers(apiKey);
    assert hs[0] == ("Content-Type", "application/json");
    if apiKey.Some? && apiKey.value != "" {
      assert hs[1] == ("Authorization", "Bearer " + apiKey.value);
    }
  }

  // ---------------------------------------------------------------- delivery with retries

  /** What one `requests.post` gives: a reply with its status code and whether its body decodes as
      JSON, a timeout, a connection error, or another exception. */
  datatype Response = Reply(code: int, json: bool) | Timeout | ConnectionError | OtherError

  /** A failure after which the loop may try again. */
  predicate Retryable(r: Response) {
    (r.Reply? && r.code != 200) || r.Timeout? || r.ConnectionError?
  }

  /** The result of `_send_to_server`, with the number of posts made and the pauses slept, in seconds. */
  datatype Delivery = Delivery(ok: bool, attempts: nat, delays: seq<int>)

  /** The delivery from attempt `k` on, where `outcome(i)` is what attempt `i` gives. A 200 reply ends
      it, successful when its body is JSON; a retryable failure is followed by a pause of 5·(k+1) seconds
      and attempt k+1 when retries are enabled and at most `maxRetries` retries have been made;
      anything else ends it unsuccessfully. */
  function Send(outcome: nat -> Response, maxRetries: int, retry: bool, k: nat): Delivery
    decreases maxRetries + 1 - k
  {
    if k > maxRetries then Delivery(false, k, [])
    else if outcome(k).Reply? && outcome(k).code == 200 then Delivery(outcome(k).json, k + 1, [])
    else if Retryable(outcome(k)) && retry && k + 1 <= maxRetries then
      var rest := Send(outcome, maxRetries, retry, k + 1);
      rest.(delays := [5 * (k + 1)] + rest.delays)
    else Delivery(false, k + 1, [])
  }

  /** The shape of every delivery from attempt `k <= maxRetries`: between one and `maxRetries + 1 - k`
      attempts, one pause fewer than attempts, the i-th pause 5·(k+1+i) seconds, every attempt but the
      last a retryable failure, and success only on a 200 reply with a JSON body. */
  lemma {:induction false} SendShape(outcome: nat -> Response, maxRetries: int, retry: bool, k: nat)
    requires k <= maxRetries
    ensures var d := Send(outcome, maxRetries, retry, k);
      && k < d.attempts <= maxRetries + 1
      && |d.delays| == d.attempts - k - 1
      && (forall i :: 0 <= i < |d.delays| ==> d.delays[i] == 5 * (k + 1 + i))
      && (forall i :: k <= i < d.attempts - 1 ==> Retryable(outcome(i)))
      && (d.attempts > k + 1 ==> retry)
      && (d.ok <==> outcome(d.attempts - 1) == Reply(200, true))
    decreases maxRetries + 1 - k
  {
    if !(outcome(k).Reply? && outcome(k).code == 200) && Retryable(outcome(k)) && retry && k + 1 <= maxRetries {
      SendShape(outcome, maxRetries, retry, k + 1);
      var rest := Send(outcome, maxRetries, retry, k + 1);
      var d := Send(outcome, maxRetries, retry, k);
      assert d.delays == [5 * (k + 1)] + rest.delays;
      assert forall i :: 0 < i < |d.delays| ==> d.delays[i] == rest.delays[i - 1];
    }
  }

  /** A delivery preceded by the pauses already slept. */
  function After(delays: seq<int>, rest: Delivery): Delivery {
    rest.(delays := delays + rest.delays)
  }

  /** One retry of the loop: a retryable failure at attempt `k` is the pause 5·(k+1) followed by the
      delivery from attempt `k + 1`, or the end of the delivery when no retry is left. */
  lemma Retried(outcome: nat -> Response, maxRetries: int, k: nat, delays: seq<int>)
    requires k <= maxRetries && Retryable(outcome(k))
    ensures k + 1 <= maxRetries ==>
      After(delays, Send(outcome, maxRetries, true, k)) == After(delays + [5 * (k + 1)], Send(outcome, maxRetries, true, k + 1))
    ensures k + 1 > maxRetries ==>
      After(delays, Send(outcome, maxRetries, true, k)) == After(delays, Send(outcome, maxRetries, true, k + 1))
  {
    var rest := Send(outcome, maxRetries, true, k + 1);
    if k + 1 <= maxRetries {
      assert delays + ([5 * (k + 1)] + rest.delays) == (delays + [5 * (k + 1)]) + rest.delays;
    }
  }

  /** The linear back-off: with retries enabled, a server that always fails gets exactly
      `maxRetries + 1` posts, with pauses of 5, 10, …, 5·maxRetries seconds between them. */
  lemma {:induction false} AlwaysFailing(outcome: nat -> Response, maxRetries: int, k: nat)
    requires 0 <= k <= maxRetries + 1
    requires forall i :: k <= i <= maxRetries ==> Retryable(outcome(i))
    ensures Send(outcome, maxRetries, true, k)
      == Delivery(false, if k <= maxRetries then maxRetries + 1 else k, seq(maxRetries + 1 - k - (if k <= maxRetries then 1 else 0), i => 5 * (k + 1 + i)))
    decreases maxRetries + 1 - k
  {
    if k < maxRetries {
      AlwaysFailing(outcome, maxRetries, k + 1);
      var rest := Send(outcome, maxRetries, true, k + 1);
      assert [5 * (k + 1)] + rest.delays == seq(maxRetries - k, i => 5 * (k + 1 + i));
    } else if k == maxRetries {
      assert seq(0, i => 5 * (k + 1 + i)) == [];
    } else {
      assert seq(0, i => 5 * (k + 1 + i)) == [];
    }
  }

  /** Without retries any failure ends the delivery after the first post, with no pause. */
  lemma NoRetry(outcome: nat -> Response, maxRetries: int)
    requires maxRetries >= 0 && !(outcome(0).Reply? && outcome(0).code == 200)
    ensures Send(outcome, maxRetries, false, 0) == Delivery(false, 1, [])
  {
  }

  /** A 200 reply whose body is not JSON is not retried: the delivery fails at that post. */
  lemma NonJsonReplyNotRetried(outcome: nat -> Response, maxRetries: int, retry: bool, k: nat)
    requires k <= maxRetries && outcome(k) == Reply(200, false)
    ensures Send(outcome, maxRetries, retry, k) == Delivery(false, k + 1, [])
  {
  }

  /** Conversely to `SendShape`: retryable failures up to a JSON 200 reply at attempt `j` deliver at
      attempt `j`, provided that many retries are allowed and enabled. */
  lemma {:induction false} SendReaches(outcome: nat -> Response, maxRetries: int, retry: bool, k: nat, j: nat)
    requires k <= j <= maxRetries && (j > k ==> retry)
    requires forall i :: k <= i < j ==> Retryable(outcome(i))
    requires outcome(j) == Reply(200, true)
    ensures Send(outcome, maxRetries, retry, k).ok && Send(outcome, maxRetries, retry, k).attempts == j + 1
    decreases j - k
  {
    if k < j {
      SendReaches(outcome, maxRetries, retry, k + 1, j);
    }
  }

  // ---------------------------------------------------------------- parsing by data type

  /** What `_parse_data` returns: an HL7 parse, the metadata of a DICOM file, or the fields a DICOM
      listener record already carries. */
  datatype ParsedData =
    | Lab(result: Hl7Parser.Parsed)
    | Imaging(study: DicomParser.Study)
    | Listener(patientId: Option<string>, patientName: Option<string>, studyDate: Option<string>,
               modality: Option<string>, seriesDescription: Option<string>)

  /** The text an `hl7` record holds: bytes are decoded first, and a missing value is empty. */
  function RawText(raw: Option<RawData>): string {
    match raw
    case None => ""
    case Some(Text(t)) => t
    case Some(Binary(b)) => Decode(b)
  }

  /** `_parse_data`, where `datasets` holds the files `dcmread` can read, by path, and `now` is the
      clock. Only the `hl7` and `dicom` types are parsed; an unreadable DICOM file gives nothing. */
  function ParseData(record: RawRecord, datasets: map<string, DicomParser.Dataset>, now: DateTime): Option<ParsedData>
    requires Valid(now)
  {
    var dataType := record.dataType.GetOr("");
    if dataType == "hl7" then
      var text := RawText(record.rawData);
      Some(Lab(Hl7Parser.Fold(Hl7Parser.Segments(text), now)))
    else if dataType == "dicom" then
      if record.filePath.Some? && record.filePath.value != "" then
        var path := record.filePath.value;
        if path in datasets then Some(Imaging(DicomParser.Parse(datasets[path], now))) else None
      else
        Some(Listener(record.patientId, record.patientName, record.studyDate, record.modality,
                      record.seriesDescription))
    else None
  }

  /** A record is dropped exactly when its type is neither `hl7` nor `dicom`, or when it names a DICOM
      file that cannot be read; otherwise the parse follows the type. */
  lemma ParseDataIff(record: RawRecord, datasets: map<string, DicomParser.Dataset>, now: DateTime)
    requires Valid(now)
    ensures var dataType := record.dataType.GetOr("");
      var named := record.filePath.Some? && record.filePath.value != "";
      var p := ParseData(record, datasets, now);
      && (p.None? <==> (dataType != "hl7" && dataType != "dicom")
                       || (dataType == "dicom" && named && record.filePath.value !in datasets))
      && (p.Some? && p.value.Lab? <==> dataType == "hl7")
      && (p.Some? && p.value.Imaging? <==> dataType == "dicom" && named && record.filePath.value in datasets)
      && (p.Some? && p.value.Listener? <==> dataType == "dicom" && !named)
  {
  }

  /** An `hl7` record holding bytes is parsed as the text they decode to. */
  lemma Hl7BytesDecoded(record: RawRecord, datasets: map<string, DicomParser.Dataset>, now: DateTime)
    requires Valid(now) && record.dataType == Some("hl7") && record.rawData.Some? && record.rawData.value.Binary?
    ensures ParseData(record, datasets, now)
      == Some(Lab(Hl7Parser.Fold(Hl7Parser.Segments(Decode(record.rawData.value.bytes)), now)))
  {
  }

  // ---------------------------------------------------------------- payloads

  /** One entry of `valores`. */
  datatype Valor = Valor(valor: string, unidad: string, referencia: string, estado: Hl7Parser.Status)

  function ValorOf(t: Hl7Parser.ObxResult): Valor {
    Valor(t.value, t.units, t.referenceRange, t.status)
  }

  /** The `valores` dictionary: each test result under its name, later results overwriting earlier ones. */
  function Valores(tests: seq<Hl7Parser.ObxResult>): map<string, Valor> {
    if tests == [] then map[]
    else Valores(tests[..|tests| - 1])[tests[|tests| - 1].testName := ValorOf(tests[|tests| - 1])]
  }

  /** `valores` has one key per test name. */
  lemma {:induction false} ValoresKeys(tests: seq<Hl7Parser.ObxResult>)
    ensures forall k :: k in Valores(tests) <==> exists i :: 0 <= i < |tests| && tests[i].testName == k
  {
    if tests != [] {
      var front, last := tests[..|tests| - 1], tests[|tests| - 1];
      ValoresKeys(front);
      forall k
        ensures k in Valores(tests) <==> exists i :: 0 <= i < |tests| && tests[i].testName == k
      {
        if k == last.testName {
          assert tests[|tests| - 1].testName == k;
        } else {
          if exists i :: 0 <= i < |tests| && tests[i].testName == k {
            var i :| 0 <= i < |tests| && tests[i].testName == k;
            assert front[i] == tests[i];
          }
          if exists i :: 0 <= i < |front| && front[i].testName == k {
            var i :| 0 <= i < |front| && front[i].testName == k;
            assert tests[i] == front[i];
          }
        }
      }
    }
  }

  /** A test name holds the last result of that name: a repeated test keeps its last value. */
  lemma {:induction false} ValoresLastWins(tests: seq<Hl7Parser.ObxResult>, i: nat)
    requires i < |tests| && forall j :: i < j < |tests| ==> tests[j].testName != tests[i].testName
    ensures tests[i].testName in Valores(tests) && Valores(tests)[tests[i].testName] == ValorOf(tests[i])
  {
    if i < |tests| - 1 {
      var front := tests[..|tests| - 1];
      forall j | i < j < |front|
        ensures front[j].testName != front[i].testName
      {
        assert front[j] == tests[j];
      }
      ValoresLastWins(front, i);
    }
  }

  /** The part of a payload that depends on the data type. The imaging `modalidad` is posted as
      `tipo_estudio`. */
  datatype Body =
    | LabBody(pacienteId: Option<string>, cedula: Option<string>, ordenId: Option<string>,
              tipoEstudio: Option<string>, valores: map<string, Valor>)
    | ImagingBody(pacienteId: Option<string>, modalidad: string, studyDate: Option<string>,
                  seriesDescription: Option<string>, filePath: Option<string>)

  /** The JSON object posted to the server. */
  datatype Payload = Payload(stationName: string, equipmentType: Option<string>, equipmentName: Option<string>,
                             timestamp: string, body: Body)

  /** The DICOM part: `None` where the parse has no modality, since lower-casing it raises. */
  function ImagingBodyOf(patientId: Option<string>, modality: Option<string>, studyDate: Option<string>,
                         seriesDescription: Option<string>, filePath: Option<string>): Option<Body> {
    if modality.None? then None
    else Some(ImagingBody(patientId, Lower(modality.value), studyDate, seriesDescription, filePath))
  }

  /** `_prepare_payload`; the parse's variant follows the record's data type. `None` where it raises. */
  function PreparePayload(stationName: string, record: RawRecord, parsed: ParsedData, now: DateTime): Option<Payload>
    requires Valid(now)
  {
    var body := match parsed
      case Lab(r) => Some(LabBody(r.patientId, r.patientId, r.orderId, record.equipmentType, Valores(r.testResults)))
      case Imaging(s) => ImagingBodyOf(s.patientId, s.modality, s.studyDate, s.seriesDescription, record.filePath)
      case Listener(id, _, date, modality, series) => ImagingBodyOf(id, modality, date, series, record.filePath);
    if body.None? then None
    else Some(Payload(stationName, record.equipmentType, record.equipmentName,
                      record.timestamp.GetOr(IsoFormat(now)), body.value))
  }

  /** The laboratory payload: the patient id doubles as `cedula`, the equipment type is the study type,
      every test result is under its name, and the record's own timestamp is kept when it has one. */
  lemma LabPayload(stationName: string, record: RawRecord, r: Hl7Parser.Parsed, now: DateTime)
    requires Valid(now)
    ensures var p := PreparePayload(stationName, record, Lab(r), now);
      && p.Some? && p.value.body.LabBody?
      && p.value.body.pacienteId == r.patientId && p.value.body.cedula == r.patientId
      && p.value.body.ordenId == r.orderId && p.value.body.tipoEstudio == record.equipmentType
      && (forall t :: t in r.testResults ==> t.testName in p.value.body.valores)
      && (record.timestamp.Some? ==> p.value.timestamp == record.timestamp.value)
      && (record.timestamp.None? ==> p.value.timestamp == IsoFormat(now))
  {
    ValoresKeys(r.testResults);
    forall t | t in r.testResults
      ensures t.testName in Valores(r.testResults)
    {
      var i :| 0 <= i < |r.testResults| && r.testResults[i] == t;
    }
  }

  /** The imaging payload: the modality lower-cased as the study type, the date and series copied, and
      the record's file path; without a modality no payload is made. */
  lemma ImagingPayload(stationName: string, record: RawRecord, study: DicomParser.Study, now: DateTime)
    requires Valid(now)
    ensures var p := PreparePayload(stationName, record, Imaging(study), now);
      && (p.None? <==> study.modality.None?)
      && (p.Some? ==> p.value.body == ImagingBody(study.patientId, Lower(study.modality.value),
                                                  study.studyDate, study.seriesDescription, record.filePath))
  {
  }

  // ---------------------------------------------------------------- one record

  /** What becomes of one record: dropped by the parse, failed while the payload is made, or posted. */
  datatype Upload = Dropped | Raised | Posted(payload: Payload, delivery: Delivery)

  predicate IsSent(u: Upload) {
    u.Posted? && u.delivery.ok
  }

  predicate IsFailed(u: Upload) {
    u.Raised? || (u.Posted? && !u.delivery.ok)
  }

  /** `_process_and_upload` of one record, with the server's behaviour `outcome`. */
  function UploadOf(stationName: string, retry: bool, maxRetries: int, record: RawRecord,
                    datasets: map<string, DicomParser.Dataset>, outcome: nat -> Response, now: DateTime): Upload
    requires Valid(now)
  {
    var parsed := ParseData(record, datasets, now);
    if parsed.None? then Dropped
    else
      var payload := PreparePayload(stationName, record, parsed.value, now);
      if payload.None? then Raised
      else Posted(payload.value, Send(outcome, maxRetries, retry, 0))
  }

  /** Every record is sent, failed or dropped, exactly one of the three, and only an unparsable one is
      dropped. */
  lemma UploadCounted(stationName: string, retry: bool, maxRetries: int, record: RawRecord,
                      datasets: map<string, DicomParser.Dataset>, outcome: nat -> Response, now: DateTime)
    requires Valid(now)
    ensures var u := UploadOf(stationName, retry, maxRetries, record, datasets, outcome, now);
      && (u.Dropped? <==> ParseData(record, datasets, now).None?)
      && (IsSent(u) || IsFailed(u) || u.Dropped?)
      && !(IsSent(u) && IsFailed(u)) && !(IsSent(u) && u.Dropped?) && !(IsFailed(u) && u.Dropped?)
  {
  }

  /** A DICOM record made by the file watcher names the file where it was found, but the file has been
      moved by then: the uploader cannot read it and drops the record. */
  lemma MovedDicomFileDropped(stationName: string, retry: bool, maxRetries: int,
                              nodes: map<string, FileWatcher.Node>, path: string, config: FileWatcher.DirConfig,
                              now: DateTime, later: DateTime, datasets: map<string, DicomParser.Dataset>,
                              outcome: nat -> Response)
    requires Valid(now) && Valid(later) && path != ""
    requires path in nodes && nodes[path].File? && |nodes[path].content| > 0
    requires config.fileType == Some("dicom") && config.path.Some?
    requires var processed := FileWatcher.PathJoin(config.path.value, "procesados");
      && processed in nodes && nodes[processed].Directory?
      && var dst := FileWatcher.PathJoin(processed, FileWatcher.TargetName(nodes, processed, FileWatcher.Basename(path), later));
         dst != path && (dst !in nodes || nodes[dst].File?)
    requires forall p :: p in datasets ==> p in FileWatcher.Process(nodes, path, config, now, later).nodes
    ensures var o := FileWatcher.Process(nodes, path, config, now, later);
      UploadOf(stationName, retry, maxRetries, o.queued[0], datasets, outcome, now) == Dropped
  {
    FileWatcher.QueuedRecord(nodes, path, config, now, later);
    FileWatcher.MovedToProcessed(nodes, path, config, now, later);
  }

  // ---------------------------------------------------------------- the uploader

  /** The outcomes of the records in order: record `i` meets the server behaviour `network(i)`. */
  function Uploads(stationName: string, retry: bool, maxRetries: int, records: seq<RawRecord>,
                   datasets: map<string, DicomParser.Dataset>, network: nat -> nat -> Response, now: DateTime): (r: seq<Upload>)
    requires Valid(now)
    ensures |r| == |records|
  {
    seq(|records|, i requires 0 <= i < |records| =>
      UploadOf(stationName, retry, maxRetries, records[i], datasets, network(i), now))
  }

  function CountSent(us: seq<Upload>): nat {
    if us == [] then 0 else CountSent(us[..|us| - 1]) + (if IsSent(us[|us| - 1]) then 1 else 0)
  }

  function CountFailed(us: seq<Upload>): nat {
    if us == [] then 0 else CountFailed(us[..|us| - 1]) + (if IsFailed(us[|us| - 1]) then 1 else 0)
  }

  function CountDropped(us: seq<Upload>): nat {
    if us == [] then 0 else CountDropped(us[..|us| - 1]) + (if us[|us| - 1].Dropped? then 1 else 0)
  }

  lemma UploadsNext(stationName: string, retry: bool, maxRetries: int, records: seq<RawRecord>, taken: nat,
                    datasets: map<string, DicomParser.Dataset>, network: nat -> nat -> Response, now: DateTime)
    requires Valid(now) && taken < |records|
    ensures Uploads(stationName, retry, maxRetries, records[..taken + 1], datasets, network, now)
      == Uploads(stationName, retry, maxRetries, records[..taken], datasets, network, now)
         + [UploadOf(stationName, retry, maxRetries, records[taken], datasets, network(taken), now)]
  {
    var a := Uploads(stationName, retry, maxRetries, records[..taken + 1], datasets, network, now);
    var b := Uploads(stationName, retry, maxRetries, records[..taken], datasets, network, now);
    forall k | 0 <= k < taken
      ensures a[k] == b[k]
    {
      assert records[..taken + 1][k] == records[..taken][k];
    }
    assert records[..taken + 1][taken] == records[taken];
  }

  lemma CountsNext(us: seq<Upload>, u: Upload)
    ensures CountSent(us + [u]) == CountSent(us) + (if IsSent(u) then 1 else 0)
    ensures CountFailed(us + [u]) == CountFailed(us) + (if IsFailed(u) then 1 else 0)
  {
    assert (us + [u])[..|us|] == us;
  }

  /** The counters account for every record taken: sent, failed and dropped add up to their number. */
  lemma {:induction false} CountsPartition(us: seq<Upload>)
    ensures CountSent(us) + CountFailed(us) + CountDropped(us) == |us|
  {
    if us != [] {
      CountsPartition(us[..|us| - 1]);
      var u := us[|us| - 1];
      assert IsSent(u) || IsFailed(u) || u.Dropped?;
      assert !(IsSent(u) && IsFailed(u)) && !(IsSent(u) && u.Dropped?) && !(IsFailed(u) && u.Dropped?);
    }
  }

  /** `ResultUploader`: its settings, the shared queue and the `stats` counters. */
  class ResultUploader {
    const serverUrl: string
    const stationName: string
    const apiKey: Option<string>
    const queue: RecordQueue
    const retryOnFailure: bool
    const maxRetries: int
    var enviados: nat
    var fallidos: nat
    var ultimoEnvio: Option<string>

    /** `__init__`: the server URL loses its trailing slashes; the counters start at zero. */
    constructor (serverUrl: string, stationName: string, apiKey: Option<string>, queue: RecordQueue,
                 retryOnFailure: bool, maxRetries: int)
      ensures this.serverUrl == RStripChar(serverUrl, '/') && this.stationName == stationName
      ensures this.apiKey == apiKey && this.queue == queue
      ensures this.retryOnFailure == retryOnFailure && this.maxRetries == maxRetries
      ensures enviados == 0 && fallidos == 0 && ultimoEnvio == None
    {
      this.serverUrl := RStripChar(serverUrl, '/');
      this.stationName := stationName;
      this.apiKey := apiKey;
      this.queue := queue;
      this.retryOnFailure := retryOnFailure;
      this.maxRetries := maxRetries;
      enviados := 0;
      fallidos := 0;
      ultimoEnvio := None;
    }

    /** `_send_to_server`: post until a 200 reply, a failure that is not retried, or the retries run
        out, where `outcome(i)` is what post `i` gives. */
    method SendToServer(outcome: nat -> Response) returns (d: Delivery)
      ensures d == Send(outcome, maxRetries, retryOnFailure, 0)
    {
      var retries: nat := 0;
      var delays: seq<int> := [];
      while retries <= maxRetries
        invariant retries == 0 || retries <= maxRetries + 1
        invariant Send(outcome, maxRetries, retryOnFailure, 0) == After(delays, Send(outcome, maxRetries, retryOnFailure, retries))
        decreases maxRetries + 1 - retries
      {
        var response := outcome(retries);
        if response.Reply? && response.code == 200 {
          d := Delivery(response.json, retries + 1, delays);
          return;
        } else if response.Reply? {
          if !retryOnFailure {
            d := Delivery(false, retries + 1, delays);
            return;
          }
          Retried(outcome, maxRetries, retries, delays);
          retries := retries + 1;
          if retries <= maxRetries {
            delays := delays + [5 * retries];
          }
        } else if response.Timeout? || response.ConnectionError? {
          if retries + 1 <= maxRetries && retryOnFailure {
            Retried(outcome, maxRetries, retries, delays);
            retries := retries + 1;
            delays := delays + [5 * retries];
          } else {
            d := Delivery(false, retries + 1, delays);
            return;
          }
        } else {
          d := Delivery(false, retries + 1, delays);
          return;
        }
      }
      d := Delivery(false, retries, delays);
    }

    /** `_process_and_upload` of one record: a sent record adds to `enviados` and stamps `ultimoEnvio`,
        a failed one adds to `fallidos`, a dropped one changes neither. */
    method ProcessAndUpload(record: RawRecord, datasets: map<string, DicomParser.Dataset>,
                            outcome: nat -> Response, now: DateTime)
      requires Valid(now)
      modifies this
      ensures var u := UploadOf(stationName, retryOnFailure, maxRetries, record, datasets, outcome, now);
        && enviados == old(enviados) + (if IsSent(u) then 1 else 0)
        && fallidos == old(fallidos) + (if IsFailed(u) then 1 else 0)
        && ultimoEnvio == (if IsSent(u) then Some(IsoFormat(now)) else old(ultimoEnvio))
    {
      var parsed := ParseData(record, datasets, now);
      if parsed.None? {
        return;
      }
      var payload := PreparePayload(stationName, record, parsed.value, now);
      if payload.None? {
        fallidos := fallidos + 1;
        return;
      }
      var delivery := SendToServer(outcome);
      if delivery.ok {
        enviados := enviados + 1;
        ultimoEnvio := Some(IsoFormat(now));
      } else {
        fallidos := fallidos + 1;
      }
    }

    /** The consumer loop of `start`, run until the queue is empty: each record is taken, processed to
        completion and never put back, with `network(i)` the server's behaviour for the i-th record. */
    method Drain(datasets: map<string, DicomParser.Dataset>, network: nat -> nat -> Response, now: DateTime)
      requires Valid(now)
      modifies this, queue
      ensures queue.items == []
      ensures var us := Uploads(stationName, retryOnFailure, maxRetries, old(queue.items), datasets, network, now);
        && enviados == old(enviados) + CountSent(us)
        && fallidos == old(fallidos) + CountFailed(us)
    {
      ghost var records := queue.items;
      var taken := 0;
      while queue.items != []
        invariant 0 <= taken <= |records| && queue.items == records[taken..]
        invariant var us := Uploads(stationName, retryOnFailure, maxRetries, records[..taken], datasets, network, now);
          && enviados == old(enviados) + CountSent(us)
          && fallidos == old(fallidos) + CountFailed(us)
        decreases |queue.items|
      {
        ghost var before := Uploads(stationName, retryOnFailure, maxRetries, records[..taken], datasets, network, now);
        var record := queue.Get();
        ProcessAndUpload(record, datasets, network(taken), now);
        UploadsNext(stationName, retryOnFailure, maxRetries, records, taken, datasets, network, now);
        CountsNext(before, UploadOf(stationName, retryOnFailure, maxRetries, record, datasets, network(taken), now));
        taken := taken + 1;
      }
      assert records[..taken] == records;
    }
  }
}
