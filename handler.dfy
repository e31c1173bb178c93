/**
  The Lambda handler of the Bedrock exercise (`lambda/handler.py`): routing an
  event to one of its actions, the parameter checks that answer 400 before any
  service call, the request bodies and responses of the text actions, and the
  accumulation of a response stream into one string.

  Every Bedrock call is a function parameter (its result as a value), and so
  are `json.loads` and UTF-8 decoding. An environment variable is an
  `Option<string>`: `None` when it is unset.
 */
module Handler {
  import opened Json

  // ---------------------------------------------------------------------------
  // Routing

  datatype Action = TextGenerate | TextStream | AsyncStatus | BatchSubmit | BatchStatus | VideoGenerate

  /** The `action` string that selects each handler. */
  function ActionName(a: Action): string {
    match a
    case TextGenerate => "text_generate"
    case TextStream => "text_stream"
    case AsyncStatus => "async_status"
    case BatchSubmit => "batch_submit"
    case BatchStatus => "batch_status"
    case VideoGenerate => "video_generate"
  }

  /** `(event or {}).get("action", "video_generate")`. */
  function ActionOf(event: Json): Json
    requires DictOrFalsy(event)
  {
    GetOr(AsDict(event), "action", JStr("video_generate"))
  }

  /** The handler `lambda_handler(event, context)` hands the event to. */
  function Route(event: Json): Action
    requires DictOrFalsy(event)
  {
    var action := ActionOf(event);
    if action == JStr("text_generate") then TextGenerate
    else if action == JStr("text_stream") then TextStream
    else if action == JStr("async_status") then AsyncStatus
    else if action == JStr("batch_submit") then BatchSubmit
    else if action == JStr("batch_status") then BatchStatus
    else VideoGenerate
  }

  /** An `action` value that names one of the five non-default handlers. */
  predicate IsNamedAction(v: Json) {
    exists a :: a != VideoGenerate && v == JStr(ActionName(a))
  }

  lemma ActionNameInjective(a: Action, b: Action)
    ensures ActionName(a) == ActionName(b) <==> a == b
  {
  }

  /** Routing is exact: an event goes to a named handler if and only if its
      `action` is that handler's name, and to video generation if and only if
      its `action` names none of the five. */
  lemma RouteIff(event: Json, a: Action)
    requires DictOrFalsy(event)
    ensures a != VideoGenerate ==> (Route(event) == a <==> ActionOf(event) == JStr(ActionName(a)))
    ensures Route(event) == VideoGenerate <==> !IsNamedAction(ActionOf(event))
  {
    if IsNamedAction(ActionOf(event)) {
      var b :| b != VideoGenerate && ActionOf(event) == JStr(ActionName(b));
      assert Route(event) == b;
    } else {
      assert ActionOf(event) != JStr(ActionName(TextGenerate));
      assert ActionOf(event) != JStr(ActionName(TextStream));
      assert ActionOf(event) != JStr(ActionName(AsyncStatus));
      assert ActionOf(event) != JStr(ActionName(BatchSubmit));
      assert ActionOf(event) != JStr(ActionName(BatchStatus));
    }
  }

  /** A `None` or empty event, an event without `action`, and an `action`
      that is not a string all go to video generation. */
  lemma RouteDefaults(event: Json)
    requires DictOrFalsy(event)
    ensures !Truthy(event) ==> Route(event) == VideoGenerate
    ensures "action" !in AsDict(event) ==> Route(event) == VideoGenerate
    ensures !ActionOf(event).JStr? ==> Route(event) == VideoGenerate
  {
  }

  /** Sending an action's own name reaches that action. */
  lemma RouteRoundTrip(a: Action)
    ensures DictOrFalsy(Obj1("action", JStr(ActionName(a))))
    ensures Route(Obj1("action", JStr(ActionName(a)))) == a
  {
    assert ActionOf(Obj1("action", JStr(ActionName(a)))) == JStr(ActionName(a));
  }

  // ---------------------------------------------------------------------------
  // Responses and parameter checks

  const DefaultTextModelId := "amazon.nova-micro-v1:0"
  const DefaultJobName := "bedrock-batch-job"

  /** `os.environ.get("TEXT_MODEL_ID", "amazon.nova-micro-v1:0")`. */
  function TextModelId(env: Option<string>): string {
    match env
    case None => DefaultTextModelId
    case Some(s) => s
  }

  const Ok: Json := JNum(200.0)
  const BadRequestCode: Json := JNum(400.0)

  /** `{"statusCode": 400, "error": msg}`. */
  function BadRequest(msg: string): Dict {
    map["statusCode" := BadRequestCode, "error" := JStr(msg)]
  }

  /** `(event or {}).get(key)`. */
  function Param(event: Json, key: string): Json
    requires DictOrFalsy(event)
  {
    Get(AsDict(event), key)
  }

  /** `_handle_async_status(event)`; `getStatus` stands for
      `get_async_invoke_status`. */
  function HandleAsyncStatus(event: Json, getStatus: Json -> Dict): Dict
    requires DictOrFalsy(event)
  {
    var arn := Param(event, "invocationArn");
    if !Truthy(arn) then BadRequest("invocationArn is required")
    else
      var status := getStatus(arn);
      map["statusCode" := Ok, "action" := JStr("async_status"), "invocationArn" := arn,
          "status" := Get(status, "status"), "details" := JObj(status)]
  }

  /** The arguments of `create_model_invocation_job`. */
  datatype BatchJobRequest = BatchJobRequest(
    roleArn: Json, modelId: Json, jobName: Json, inputS3Uri: Json, outputS3Uri: Json)

  /** The job `_handle_batch_submit` asks for: `modelId` is the event's when
      truthy, else the environment's, else the default model; `jobName` is the
      event's when present (even `None`), else the default name. */
  function BatchRequest(event: Json, env: Option<string>): BatchJobRequest
    requires DictOrFalsy(event)
  {
    BatchJobRequest(
      Param(event, "roleArn"),
      Or(Param(event, "modelId"), JStr(TextModelId(env))),
      GetOr(AsDict(event), "jobName", JStr(DefaultJobName)),
      Param(event, "inputS3Uri"),
      Param(event, "outputS3Uri"))
  }

  /** `_handle_batch_submit(event)`; `createJob` stands for
      `create_model_invocation_job`. */
  function HandleBatchSubmit(event: Json, env: Option<string>, createJob: BatchJobRequest -> Dict): Dict
    requires DictOrFalsy(event)
  {
    var req := BatchRequest(event, env);
    if !Truthy(req.roleArn) || !Truthy(req.inputS3Uri) || !Truthy(req.outputS3Uri) then
      BadRequest("roleArn, inputS3Uri, and outputS3Uri are required")
    else
      var resp := createJob(req);
      map["statusCode" := Ok, "action" := JStr("batch_submit"),
          "jobArn" := Get(resp, "jobArn"), "modelId" := req.modelId]
  }

  /** `_handle_batch_status(event)`; `getJob` stands for
      `get_model_invocation_job`. */
  function HandleBatchStatus(event: Json, getJob: Json -> Dict): Dict
    requires DictOrFalsy(event)
  {
    var arn := Param(event, "jobArn");
    if !Truthy(arn) then BadRequest("jobArn is required")
    else
      var st := getJob(arn);
      map["statusCode" := Ok, "action" := JStr("batch_status"), "jobArn" := arn,
          "status" := Get(st, "status"), "details" := JObj(st)]
  }

  /** A status request answers 400 exactly when `invocationArn` is missing or
      falsy, and then its answer does not depend on the service at all. */
  lemma AsyncStatusRejects(event: Json, getStatus: Json -> Dict, other: Json -> Dict)
    requires DictOrFalsy(event)
    ensures HandleAsyncStatus(event, getStatus)["statusCode"] == BadRequestCode <==>
              !Truthy(Param(event, "invocationArn"))
    ensures !Truthy(Param(event, "invocationArn")) ==>
              HandleAsyncStatus(event, getStatus) == BadRequest("invocationArn is required") &&
              HandleAsyncStatus(event, getStatus) == HandleAsyncStatus(event, other)
  {
  }

  /** An accepted status request echoes the ARN and reports the service's
      `status` and its whole answer. */
  lemma AsyncStatusAccepts(event: Json, getStatus: Json -> Dict)
    requires DictOrFalsy(event) && Truthy(Param(event, "invocationArn"))
    ensures var r := HandleAsyncStatus(event, getStatus);
            var st := getStatus(Param(event, "invocationArn"));
            r["statusCode"] == Ok && r["invocationArn"] == Param(event, "invocationArn") &&
            r["status"] == Get(st, "status") && r["details"] == JObj(st)
  {
  }

  /** A batch submission answers 400 exactly when one of `roleArn`,
      `inputS3Uri`, `outputS3Uri` is missing or falsy, and then no job is
      created: the answer does not depend on the service. */
  lemma BatchSubmitRejects(event: Json, env: Option<string>, createJob: BatchJobRequest -> Dict,
                           other: BatchJobRequest -> Dict)
    requires DictOrFalsy(event)
    ensures var missing := !Truthy(Param(event, "roleArn")) || !Truthy(Param(event, "inputS3Uri")) ||
                           !Truthy(Param(event, "outputS3Uri"));
            (HandleBatchSubmit(event, env, createJob)["statusCode"] == BadRequestCode <==> missing) &&
            (missing ==>
               HandleBatchSubmit(event, env, createJob) ==
                 BadRequest("roleArn, inputS3Uri, and outputS3Uri are required") &&
               HandleBatchSubmit(event, env, createJob) == HandleBatchSubmit(event, env, other))
  {
  }

  /** The defaults of a submitted job: the event's `modelId` when truthy,
      otherwise the `TEXT_MODEL_ID` setting, otherwise the default model; the
      event's `jobName` when present, otherwise `"bedrock-batch-job"`. The
      three required values are passed through unchanged. */
  lemma BatchRequestDefaults(event: Json, env: Option<string>)
    requires DictOrFalsy(event)
    ensures var req := BatchRequest(event, env);
            (Truthy(Param(event, "modelId")) ==> req.modelId == Param(event, "modelId")) &&
            (!Truthy(Param(event, "modelId")) && env.Some? ==> req.modelId == JStr(env.value)) &&
            (!Truthy(Param(event, "modelId")) && env.None? ==> req.modelId == JStr(DefaultTextModelId)) &&
            ("jobName" in AsDict(event) ==> req.jobName == AsDict(event)["jobName"]) &&
            ("jobName" !in AsDict(event) ==> req.jobName == JStr(DefaultJobName)) &&
            req.roleArn == Param(event, "roleArn") && req.inputS3Uri == Param(event, "inputS3Uri") &&
            req.outputS3Uri == Param(event, "outputS3Uri")
  {
  }

  /** An accepted submission reports the job's ARN and the model it used. */
  lemma BatchSubmitAccepts(event: Json, env: Option<string>, createJob: BatchJobRequest -> Dict)
    requires DictOrFalsy(event)
    requires Truthy(Param(event, "roleArn")) && Truthy(Param(event, "inputS3Uri")) &&
             Truthy(Param(event, "outputS3Uri"))
    ensures var r := HandleBatchSubmit(event, env, createJob);
            r["statusCode"] == Ok && r["modelId"] == BatchRequest(event, env).modelId &&
            r["jobArn"] == Get(createJob(BatchRequest(event, env)), "jobArn")
  {
  }

  /** A job status request answers 400 exactly when `jobArn` is missing or
      falsy, and then its answer does not depend on the service. */
  lemma BatchStatusRejects(event: Json, getJob: Json -> Dict, other: Json -> Dict)
    requires DictOrFalsy(event)
    ensures HandleBatchStatus(event, getJob)["statusCode"] == BadRequestCode <==> !Truthy(Param(event, "jobArn"))
    ensures !Truthy(Param(event, "jobArn")) ==>
              HandleBatchStatus(event, getJob) == BadRequest("jobArn is required") &&
              HandleBatchStatus(event, getJob) == HandleBatchStatus(event, other)
  {
  }

  /** An accepted job status request echoes the ARN and reports the job's
      `status` and the whole description. */
  lemma BatchStatusAccepts(event: Json, getJob: Json -> Dict)
    requires DictOrFalsy(event) && Truthy(Param(event, "jobArn"))
    ensures var r := HandleBatchStatus(event, getJob);
            var st := getJob(Param(event, "jobArn"));
            r["statusCode"] == Ok && r["jobArn"] == Param(event, "jobArn") &&
            r["status"] == Get(st, "status") && r["details"] == JObj(st)
  {
  }

  // ---------------------------------------------------------------------------
  // Text generation

  const DefaultGeneratePrompt := "Rewrite this sentence in a formal tone: You are very good at your job."

  /** The body `_handle_text_generate` sends. */
  function GenerateBody(prompt: Json): Json {
    JObj(map[
      "schemaVersion" := JStr("messages-v1"),
      "messages" := JArr([UserMessage(prompt)]),
      "inferenceConfig" := JObj(map["maxTokens" := JNum(500.0), "topK" := JNum(20.0), "temperature" := JNum(0.7)])])
  }

  /** `data` in `_handle_text_generate`: the parsed payload, or `{"raw": text}`
      when it does not parse; `None` when it neither parses nor decodes as
      UTF-8 (the strict `decode` raises, and the handler with it). */
  function GeneratedData(payload: seq<byte>, loads: seq<byte> -> Option<Json>,
                         decode: seq<byte> -> Option<string>): Option<Json>
  {
    match loads(payload)
    case Some(v) => Some(v)
    case None =>
      match decode(payload)
      case Some(s) => Some(Obj1("raw", JStr(s)))
      case None => None
  }

  /** `_handle_text_generate(event)`; `invoke` stands for `invoke_model`
      with its body serialised, and gives the bytes of the response body. */
  function HandleTextGenerate(event: Json, env: Option<string>, invoke: (string, Json) -> seq<byte>,
                              loads: seq<byte> -> Option<Json>, decode: seq<byte> -> Option<string>): Option<Dict>
    requires DictOrFalsy(event)
  {
    var modelId := TextModelId(env);
    var prompt := GetOr(AsDict(event), "prompt", JStr(DefaultGeneratePrompt));
    var payload := invoke(modelId, GenerateBody(prompt));
    match GeneratedData(payload, loads, decode)
    case None => None
    case Some(data) =>
      Some(map["statusCode" := Ok, "action" := JStr("text_generate"), "modelId" := JStr(modelId), "body" := data])
  }

  /** The payload is returned parsed when it parses; otherwise as
      `{"raw": text}` with its decoded text; the handler fails only when the
      payload neither parses nor decodes. */
  lemma GeneratedDataCases(payload: seq<byte>, loads: seq<byte> -> Option<Json>,
                           decode: seq<byte> -> Option<string>)
    ensures loads(payload).Some? ==> GeneratedData(payload, loads, decode) == loads(payload)
    ensures loads(payload).None? && decode(payload).Some? ==>
              GeneratedData(payload, loads, decode) == Some(Obj1("raw", JStr(decode(payload).value)))
    ensures GeneratedData(payload, loads, decode).None? <==> loads(payload).None? && decode(payload).None?
  {
  }

  /** The request carries the event's `prompt` (the default one when it has
      none) in a single user message, to the configured model; the answer
      names that model and carries the data. */
  lemma TextGenerateRequest(event: Json, env: Option<string>, invoke: (string, Json) -> seq<byte>,
                            loads: seq<byte> -> Option<Json>, decode: seq<byte> -> Option<string>)
    requires DictOrFalsy(event)
    ensures var prompt := GetOr(AsDict(event), "prompt", JStr(DefaultGeneratePrompt));
            var data := GeneratedData(invoke(TextModelId(env), GenerateBody(prompt)), loads, decode);
            ("prompt" !in AsDict(event) ==> prompt == JStr(DefaultGeneratePrompt)) &&
            GenerateBody(prompt).fields["messages"] == JArr([UserMessage(prompt)]) &&
            (HandleTextGenerate(event, env, invoke, loads, decode).Some? <==> data.Some?) &&
            (data.Some? ==>
               var r := HandleTextGenerate(event, env, invoke, loads, decode).value;
               r["statusCode"] == Ok && r["modelId"] == JStr(TextModelId(env)) && r["body"] == data.value)
  {
  }

  // ---------------------------------------------------------------------------
  // Streaming

  /** A stream event's `chunk`, present in the event when `Some`; `bytes` is
      its `bytes` entry, when it has one. */
  datatype Chunk = Chunk(bytes: Option<seq<byte>>)
  datatype StreamEvent = StreamEvent(chunk: Option<Chunk>)

  /** The bytes an event carries when neither `chunk` nor `bytes` is missing
      or empty; an empty chunk has no `bytes`, so it is covered too. */
  function ChunkBytes(ev: StreamEvent): Option<seq<byte>> {
    if ev.chunk.Some? && ev.chunk.value.bytes.Some? && ev.chunk.value.bytes.value != [] then
      ev.chunk.value.bytes
    else None
  }

  /** What a decoded chunk adds to the text: a truthy string `outputText`
      (else `text`) of a JSON object; otherwise the decoded chunk itself. A
      truthy field that is not a string makes the concatenation raise inside
      the `try`, whose handler then appends the decoded chunk too. */
  function DecodedContribution(decoded: string, loads: string -> Option<Json>): string {
    match loads(decoded)
    case Some(JObj(obj)) =>
      var textPart := Or(Or(Get(obj, "outputText"), Get(obj, "text")), JStr(""));
      if Truthy(textPart) && textPart.JStr? then textPart.s else decoded
    case _ => decoded
  }

  /** What one stream event adds to `full_text`: nothing when it is skipped
      or fails to decode. */
  function Contribution(ev: StreamEvent, decode: seq<byte> -> Option<string>,
                        loads: string -> Option<Json>): string
  {
    match ChunkBytes(ev)
    case None => ""
    case Some(b) =>
      match decode(b)
      case None => ""
      case Some(decoded) => DecodedContribution(decoded, loads)
  }

  /** `full_text` after the loop has consumed `events`. */
  function StreamText(events: seq<StreamEvent>, decode: seq<byte> -> Option<string>,
                      loads: string -> Option<Json>): string
  {
    if events == [] then ""
    else StreamText(events[..|events| - 1], decode, loads) + Contribution(events[|events| - 1], decode, loads)
  }

  const DefaultStreamPrompt := "Tell me what type of dances people do."

  /** `_handle_text_stream(event)`; `invokeStream` stands for
      `invoke_model_with_response_stream` and gives the events in arrival
      order. */
  method HandleTextStream(event: Json, env: Option<string>, invokeStream: (string, Json) -> seq<StreamEvent>,
                          decode: seq<byte> -> Option<string>, loads: string -> Option<Json>)
    returns (response: Dict)
    requires DictOrFalsy(event)
    ensures var prompt := GetOr(AsDict(event), "prompt", JStr(DefaultStreamPrompt));
            var stream := invokeStream(TextModelId(env), Obj1("messages", JArr([UserMessage(prompt)])));
            response == map["statusCode" := Ok, "action" := JStr("text_stream"),
                            "modelId" := JStr(TextModelId(env)), "body" := JStr(StreamText(stream, decode, loads))]
  {
    var textModelId := TextModelId(env);
    var prompt := GetOr(AsDict(event), "prompt", JStr(DefaultStreamPrompt));
    var stream := invokeStream(textModelId, Obj1("messages", JArr([UserMessage(prompt)])));
    var fullText := "";
    for i := 0 to |stream|
      invariant fullText == StreamText(stream[..i], decode, loads)
    {
      var ev := stream[i];
      assert stream[..i + 1][..i] == stream[..i];
      if ev.chunk.None? {
        continue;
      }
      var chunkBytes := ev.chunk.value.bytes;
      if chunkBytes.None? || chunkBytes.value == [] {
        continue;
      }
      var decoded := decode(chunkBytes.value);
      if decoded.None? {
        continue;
      }
      var obj := loads(decoded.value);
      if obj.Some? && obj.value.JObj? {
        var textPart := Or(Or(Get(obj.value.fields, "outputText"), Get(obj.value.fields, "text")), JStr(""));
        if Truthy(textPart) && textPart.JStr? {
          fullText := fullText + textPart.s;
        } else {
          fullText := fullText + decoded.value;
        }
      } else {
        fullText := fullText + decoded.value;
      }
    }
    assert stream[..|stream|] == stream;
    response := map["statusCode" := Ok, "action" := JStr("text_stream"),
                    "modelId" := JStr(textModelId), "body" := JStr(fullText)];
  }

  /** The streamed text is the concatenation, in arrival order, of what each
      part of the stream contributes. */
  lemma {:induction false} StreamTextAppend(a: seq<StreamEvent>, b: seq<StreamEvent>,
                                            decode: seq<byte> -> Option<string>, loads: string -> Option<Json>)
    ensures StreamText(a + b, decode, loads) == StreamText(a, decode, loads) + StreamText(b, decode, loads)
    decreases |b|
  {
    if b == [] {
      assert a + b == a;
    } else {
      var n := |b| - 1;
      var c := Contribution(b[n], decode, loads);
      assert StreamText(a + b, decode, loads) == StreamText(a + b[..n], decode, loads) + c by {
        assert (a + b)[..|a + b| - 1] == a + b[..n];
        assert (a + b)[|a + b| - 1] == b[n];
      }
      assert StreamText(b, decode, loads) == StreamText(b[..n], decode, loads) + c;
      StreamTextAppend(a, b[..n], decode, loads);
    }
  }

  /** A stream of one event yields that event's contribution. */
  lemma StreamTextOne(ev: StreamEvent, decode: seq<byte> -> Option<string>, loads: string -> Option<Json>)
    ensures StreamText([ev], decode, loads) == Contribution(ev, decode, loads)
  {
    assert [ev][..0] == [];
  }

  /** Events that contribute nothing (no chunk, no or empty bytes, bytes
      that do not decode) leave the text as if they had not arrived. */
  lemma StreamTextSkips(a: seq<StreamEvent>, ev: StreamEvent, b: seq<StreamEvent>,
                        decode: seq<byte> -> Option<string>, loads: string -> Option<Json>)
    requires ChunkBytes(ev).None? || decode(ChunkBytes(ev).value).None?
    ensures StreamText(a + [ev] + b, decode, loads) == StreamText(a + b, decode, loads)
  {
    StreamTextAppend(a + [ev], b, decode, loads);
    StreamTextAppend(a, [ev], decode, loads);
    StreamTextOne(ev, decode, loads);
    StreamTextAppend(a, b, decode, loads);
  }

  /** An event is skipped when its chunk is missing, or its bytes are missing
      or empty, or they fail to decode. */
  lemma ContributionSkips(ev: StreamEvent, decode: seq<byte> -> Option<string>, loads: string -> Option<Json>)
    ensures ev.chunk.None? ==> Contribution(ev, decode, loads) == ""
    ensures ev.chunk.Some? && (ev.chunk.value.bytes.None? || ev.chunk.value.bytes.value == []) ==>
              Contribution(ev, decode, loads) == ""
    ensures ChunkBytes(ev).Some? && decode(ChunkBytes(ev).value).None? ==> Contribution(ev, decode, loads) == ""
  {
  }

  /** What a decoded chunk contributes: the `outputText` of a JSON object when
      it is a non-empty string, else its `text` when `outputText` is falsy and
      `text` is a non-empty string; in every other case (no such field, a
      non-string field, JSON that is not an object, text that does not parse)
      the decoded chunk unchanged. */
  lemma DecodedContributionCases(decoded: string, loads: string -> Option<Json>)
    ensures var v := loads(decoded);
            (v.Some? && v.value.JObj? && Get(v.value.fields, "outputText").JStr? &&
             Get(v.value.fields, "outputText").s != [] ==>
               DecodedContribution(decoded, loads) == Get(v.value.fields, "outputText").s) &&
            (v.Some? && v.value.JObj? && !Truthy(Get(v.value.fields, "outputText")) &&
             Get(v.value.fields, "text").JStr? && Get(v.value.fields, "text").s != [] ==>
               DecodedContribution(decoded, loads) == Get(v.value.fields, "text").s) &&
            (v.Some? && v.value.JObj? && !Truthy(Get(v.value.fields, "outputText")) &&
             !Truthy(Get(v.value.fields, "text")) ==>
               DecodedContribution(decoded, loads) == decoded) &&
            (v.Some? && v.value.JObj? && Truthy(Get(v.value.fields, "outputText")) &&
             !Get(v.value.fields, "outputText").JStr? ==>
               DecodedContribution(decoded, loads) == decoded) &&
            (v.Some? && v.value.JObj? && !Truthy(Get(v.value.fields, "outputText")) &&
             Truthy(Get(v.value.fields, "text")) && !Get(v.value.fields, "text").JStr? ==>
               DecodedContribution(decoded, loads) == decoded) &&
            (v.Some? && !v.value.JObj? ==> DecodedContribution(decoded, loads) == decoded) &&
            (v.None? ==> DecodedContribution(decoded, loads) == decoded)
  {
  }
}
