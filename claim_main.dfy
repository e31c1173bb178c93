/**
  The pieces of the claim pipeline's entry point (`app/main.py`) that hold
  logic: normalising a model response to text, recovering a JSON object from
  the extraction text, building the object key and `s3://` URI of an upload,
  and `main`'s composition of these with retrieval, prompting and
  validation. The upload itself, file reading, argument parsing and printing
  are not modelled; `json.loads`, `json.dumps` and the model invocation are
  parameters.
 */
module ClaimPipeline {
  import opened Json
  import opened Strings
  import Rag
  import Validator
  import PromptTemplates

  // ---------------------------------------------------------------------------
  // parse_model_text_output

  /** The value `resp.get("outputText") or resp.get("content") or resp.get("raw")`. */
  function Content(d: Dict): Json {
    Or(Or(Get(d, "outputText"), Get(d, "content")), Get(d, "raw"))
  }

  /** For one element of a content list: `c.get("text") or c.get("raw")` when
      it is a dict, nothing otherwise. */
  function PartOf(c: Json): Json {
    if c.JObj? then Or(Get(c.fields, "text"), Get(c.fields, "raw")) else JNull
  }

  /** Python's `"\n".join(parts)` raises on a non-string part; the model admits
      only lists whose usable parts are strings. */
  predicate PartsAreStrings(items: seq<Json>) {
    forall i :: 0 <= i < |items| ==> Truthy(PartOf(items[i])) ==> PartOf(items[i]).JStr?
  }

  predicate WellTypedResponse(resp: Json) {
    resp.JObj? && Content(resp.fields).JArr? ==> PartsAreStrings(Content(resp.fields).items)
  }

  /** The list `parts` the loop collects from `items`. */
  function TextParts(items: seq<Json>): seq<string>
    requires PartsAreStrings(items)
  {
    if items == [] then []
    else
      var last := PartOf(items[|items| - 1]);
      TextParts(items[..|items| - 1]) + (if Truthy(last) then [last.s] else [])
  }

  /** The loop in the list branch of `parse_model_text_output`. */
  method CollectTextParts(items: seq<Json>) returns (parts: seq<string>)
    requires PartsAreStrings(items)
    ensures parts == TextParts(items)
  {
    parts := [];
    for i := 0 to |items|
      invariant parts == TextParts(items[..i])
    {
      var c := items[i];
      if c.JObj? {
        var t := Or(Get(c.fields, "text"), Get(c.fields, "raw"));
        if Truthy(t) {
          parts := parts + [t.s];
        }
      }
      assert items[..i + 1][..i] == items[..i];
    }
    assert items[..|items|] == items;
  }

  /** The text `parse_model_text_output(resp)` returns. */
  function ModelText(resp: Json, dumps: Json -> string): string
    requires WellTypedResponse(resp)
  {
    if resp.JObj? then
      var c := Content(resp.fields);
      if c.JStr? then c.s
      else if c.JArr? && TextParts(c.items) != [] then Join(TextParts(c.items), "\n")
      else dumps(resp)
    else dumps(resp)
  }

  /** `parse_model_text_output(resp)`. */
  method ParseModelTextOutput(resp: Json, dumps: Json -> string) returns (text: string)
    requires WellTypedResponse(resp)
    ensures text == ModelText(resp, dumps)
  {
    if resp.JObj? {
      var content := Or(Or(Get(resp.fields, "outputText"), Get(resp.fields, "content")), Get(resp.fields, "raw"));
      if content.JStr? {
        return content.s;
      }
      if content.JArr? {
        var parts := CollectTextParts(content.items);
        if parts != [] {
          return Join(parts, "\n");
        }
      }
    }
    text := dumps(resp);
  }

  /** Collecting parts distributes over concatenation of the list. */
  lemma {:induction false} TextPartsAppend(a: seq<Json>, b: seq<Json>)
    requires PartsAreStrings(a) && PartsAreStrings(b)
    ensures PartsAreStrings(a + b)
    ensures TextParts(a + b) == TextParts(a) + TextParts(b)
    decreases |b|
  {
    if b == [] {
      assert a + b == a;
    } else {
      var n := |b| - 1;
      assert (a + b)[..|a + b| - 1] == a + b[..n];
      assert (a + b)[|a + b| - 1] == b[n];
      TextPartsAppend(a, b[..n]);
    }
  }

  /** The parts are, in list order, the truthy `text` (else `raw`) strings of
      the dict elements; an element that is not a dict, or whose `text` and
      `raw` are both falsy, contributes nothing. */
  lemma TextPartsOfOne(c: Json)
    requires Truthy(PartOf(c)) ==> PartOf(c).JStr?
    ensures PartsAreStrings([c])
    ensures TextParts([c]) == if c.JObj? && Truthy(PartOf(c)) then [PartOf(c).s] else []
    ensures c.JObj? && Truthy(Get(c.fields, "text")) ==> TextParts([c]) == [Get(c.fields, "text").s]
    ensures c.JObj? && !Truthy(Get(c.fields, "text")) && Truthy(Get(c.fields, "raw")) ==>
              TextParts([c]) == [Get(c.fields, "raw").s]
  {
    assert [c][0] == c;
    assert [c][..0] == [];
  }

  /** Every collected part is a non-empty string taken from some element. */
  lemma {:induction false} TextPartsFromItems(items: seq<Json>)
    requires PartsAreStrings(items)
    ensures forall p :: p in TextParts(items) ==>
              p != [] && exists i :: 0 <= i < |items| && PartOf(items[i]) == JStr(p)
    ensures |TextParts(items)| <= |items|
  {
    if items != [] {
      var n := |items| - 1;
      assert PartsAreStrings(items[..n]);
      TextPartsFromItems(items[..n]);
      forall p | p in TextParts(items)
        ensures p != [] && exists i :: 0 <= i < |items| && PartOf(items[i]) == JStr(p)
      {
        if p in TextParts(items[..n]) {
          var i :| 0 <= i < n && PartOf(items[..n][i]) == JStr(p);
          assert PartOf(items[i]) == JStr(p);
        } else {
          assert PartOf(items[n]) == JStr(p);
        }
      }
    }
  }

  /** The three key-lookup outcomes: the first truthy one of `outputText`,
      `content` is returned verbatim when it is a string; when both are falsy
      `raw` is used as it is, so an empty `raw` string gives `""`. */
  lemma ModelTextString(d: Dict, dumps: Json -> string)
    requires WellTypedResponse(JObj(d))
    ensures Truthy(Get(d, "outputText")) && Get(d, "outputText").JStr? ==>
              ModelText(JObj(d), dumps) == Get(d, "outputText").s
    ensures !Truthy(Get(d, "outputText")) && Truthy(Get(d, "content")) && Get(d, "content").JStr? ==>
              ModelText(JObj(d), dumps) == Get(d, "content").s
    ensures !Truthy(Get(d, "outputText")) && !Truthy(Get(d, "content")) && Get(d, "raw").JStr? ==>
              ModelText(JObj(d), dumps) == Get(d, "raw").s
  {
  }

  /** A list value yields its parts joined by newlines; with no usable part
      (and for every other kind of value but a string, and for a non-dict
      response) the whole response is serialised. */
  lemma ModelTextFallbacks(resp: Json, dumps: Json -> string)
    requires WellTypedResponse(resp)
    ensures resp.JObj? && Content(resp.fields).JArr? && TextParts(Content(resp.fields).items) != [] ==>
              ModelText(resp, dumps) == Join(TextParts(Content(resp.fields).items), "\n")
    ensures resp.JObj? && Content(resp.fields).JArr? && TextParts(Content(resp.fields).items) == [] ==>
              ModelText(resp, dumps) == dumps(resp)
    ensures resp.JObj? && !Content(resp.fields).JArr? && !Content(resp.fields).JStr? ==>
              ModelText(resp, dumps) == dumps(resp)
    ensures !resp.JObj? ==> ModelText(resp, dumps) == dumps(resp)
  {
  }

  /** A dict with none of the three keys is serialised. */
  lemma ModelTextNoKnownKey(d: Dict, dumps: Json -> string)
    requires "outputText" !in d && "content" !in d && "raw" !in d
    ensures WellTypedResponse(JObj(d)) && ModelText(JObj(d), dumps) == dumps(JObj(d))
  {
  }

  /** A top-level `text` key is never consulted: it changes the chosen
      content in no case, and the result only where the whole response is
      serialised. */
  lemma ModelTextIgnoresText(d: Dict, v: Json, dumps: Json -> string)
    requires WellTypedResponse(JObj(d))
    ensures Content(d["text" := v]) == Content(d)
    ensures WellTypedResponse(JObj(d["text" := v]))
    ensures ModelText(JObj(d), dumps) != dumps(JObj(d)) ==>
              ModelText(JObj(d["text" := v]), dumps) == ModelText(JObj(d), dumps)
  {
    assert Get(d["text" := v], "outputText") == Get(d, "outputText");
    assert Get(d["text" := v], "content") == Get(d, "content");
    assert Get(d["text" := v], "raw") == Get(d, "raw");
  }

  /** The `{"raw": text}` shape the model invoker falls back to is read back
      as exactly that text, empty or not. */
  lemma ModelTextOfRawFallback(s: string, dumps: Json -> string)
    ensures WellTypedResponse(Obj1("raw", JStr(s)))
    ensures ModelText(Obj1("raw", JStr(s)), dumps) == s
  {
    assert Content(map["raw" := JStr(s)]) == JStr(s);
  }

  /** Two worked responses: `{"outputText": "hello"}` gives "hello", and
      `{"content": [{"text": "a"}, {"text": "b"}]}` gives "a\nb". */
  lemma ModelTextExamples(dumps: Json -> string)
    ensures WellTypedResponse(Obj1("outputText", JStr("hello")))
    ensures ModelText(Obj1("outputText", JStr("hello")), dumps) == "hello"
    ensures WellTypedResponse(Obj1("content", JArr([Obj1("text", JStr("a")), Obj1("text", JStr("b"))])))
    ensures ModelText(Obj1("content", JArr([Obj1("text", JStr("a")), Obj1("text", JStr("b"))])), dumps) == "a\nb"
  {
    var items := [Obj1("text", JStr("a")), Obj1("text", JStr("b"))];
    assert Content(map["outputText" := JStr("hello")]) == JStr("hello");
    assert Content(map["content" := JArr(items)]) == JArr(items);
    assert PartOf(items[0]) == JStr("a") && PartOf(items[1]) == JStr("b");
    assert items[..1][..0] == [];
    assert items[..1] == [items[0]];
    assert TextParts(items) == ["a", "b"];
  }

  // ---------------------------------------------------------------------------
  // Recovering the extraction JSON (the try/except in main)

  /** `s.index(c)`, with `None` for the `ValueError`. */
  function IndexOf(s: string, c: char): (r: Option<nat>)
    ensures r.Some? ==> r.value < |s| && s[r.value] == c && forall i :: 0 <= i < r.value ==> s[i] != c
    ensures r.None? ==> forall i :: 0 <= i < |s| ==> s[i] != c
  {
    if s == [] then None
    else if s[0] == c then Some(0)
    else match IndexOf(s[1..], c)
      case None => None
      case Some(i) => Some(i + 1)
  }

  /** `s.rindex(c)`, with `None` for the `ValueError`. */
  function RIndexOf(s: string, c: char): (r: Option<nat>)
    ensures r.Some? ==> r.value < |s| && s[r.value] == c && forall i :: r.value < i < |s| ==> s[i] != c
    ensures r.None? ==> forall i :: 0 <= i < |s| ==> s[i] != c
  {
    if s == [] then None
    else if s[|s| - 1] == c then Some(|s| - 1)
    else RIndexOf(s[..|s| - 1], c)
  }

  /** Python's `s[i:j]` for `0 <= i` and `j <= len(s)`: empty when `j < i`. */
  function PySlice(s: string, i: nat, j: nat): string
    requires i <= |s| && j <= |s|
  {
    if i <= j then s[i..j] else ""
  }

  const EmptyObject: Json := JObj(map[])

  /** The candidate `extraction_text[start:end]` for the second attempt: from
      the first `{` through the last `}`, when both exist. */
  function BraceSlice(text: string): Option<string> {
    match (IndexOf(text, '{'), RIndexOf(text, '}'))
    case (Some(i), Some(j)) => Some(PySlice(text, i, j + 1))
    case _ => None
  }

  /** The value `extracted` holds after lines 62-71 of main. */
  function RecoverExtraction(text: string, loads: string -> Option<Json>): Json {
    match loads(text)
    case Some(v) => v
    case None =>
      match BraceSlice(text)
      case Some(slice) => (match loads(slice) case Some(v) => v case None => EmptyObject)
      case None => EmptyObject
  }

  /** `s.index(c)` and `s.rindex(c)` fail exactly when `c` does not occur. */
  lemma IndexOfFound(s: string, c: char)
    ensures IndexOf(s, c).Some? <==> c in s
    ensures RIndexOf(s, c).Some? <==> c in s
  {
    if c in s {
      var k :| 0 <= k < |s| && s[k] == c;
    }
  }

  /** What the candidate slice is: it exists exactly when the text holds a `{`
      and a `}`; when the first `{` precedes the last `}` it is the text from
      the one through the other, so it starts with `{` and ends with `}`;
      otherwise (the last `}` precedes the first `{`) it is empty. */
  lemma BraceSliceShape(text: string)
    ensures BraceSlice(text).Some? <==> ('{' in text && '}' in text)
    ensures BraceSlice(text).Some? ==>
              var i, j, slice := IndexOf(text, '{').value, RIndexOf(text, '}').value, BraceSlice(text).value;
              (i <= j ==> slice == text[i..j + 1] && slice[0] == '{' && slice[|slice| - 1] == '}') &&
              (j < i ==> slice == "")
  {
    BraceSliceExists(text);
    if BraceSlice(text).Some? {
      BraceSliceOf(text);
    }
  }

  lemma BraceSliceExists(text: string)
    ensures BraceSlice(text).Some? <==> ('{' in text && '}' in text)
  {
    assert BraceSlice(text).Some? <==> IndexOf(text, '{').Some? && RIndexOf(text, '}').Some?;
    IndexOfFound(text, '{');
    IndexOfFound(text, '}');
  }

  lemma BraceSliceOf(text: string)
    requires BraceSlice(text).Some?
    ensures IndexOf(text, '{').Some? && RIndexOf(text, '}').Some?
    ensures var i, j, slice := IndexOf(text, '{').value, RIndexOf(text, '}').value, BraceSlice(text).value;
            (i <= j ==> slice == text[i..j + 1] && slice[0] == '{' && slice[|slice| - 1] == '}') &&
            (j < i ==> slice == "")
  {
    var i, j := IndexOf(text, '{').value, RIndexOf(text, '}').value;
    var slice := BraceSlice(text).value;
    assert slice == PySlice(text, i, j + 1);
    if i <= j {
      assert slice[0] == text[i] && slice[|slice| - 1] == text[j];
    }
  }

  /** The fallback chain: the whole text when it parses; otherwise the brace
      slice when there is one and it parses; otherwise `{}`. */
  lemma RecoverExtractionCases(text: string, loads: string -> Option<Json>)
    ensures loads(text).Some? ==> RecoverExtraction(text, loads) == loads(text).value
    ensures loads(text).None? && ('{' !in text || '}' !in text) ==>
              RecoverExtraction(text, loads) == EmptyObject
    ensures loads(text).None? && BraceSlice(text).Some? ==>
              RecoverExtraction(text, loads) ==
                (match loads(BraceSlice(text).value) case Some(v) => v case None => EmptyObject)
  {
    BraceSliceShape(text);
  }

  // ---------------------------------------------------------------------------
  // upload_to_s3: object key and URI

  const DefaultKeyPrefix := "claims/"

  /** `os.path.basename(path)`: what follows the last `/`. */
  function Basename(path: string): (b: string)
    ensures '/' !in b
    ensures |b| <= |path| && path[|path| - |b|..] == b
    ensures |b| < |path| ==> path[|path| - |b| - 1] == '/'
  {
    match RIndexOf(path, '/')
    case None => path
    case Some(i) => path[i + 1..]
  }

  /** `f"{key_prefix}{os.path.basename(local_path)}"`. */
  function ObjectKey(keyPrefix: string, localPath: string): string {
    keyPrefix + Basename(localPath)
  }

  /** `f"s3://{bucket}/{key}"`. */
  function S3Uri(bucket: string, key: string): string {
    "s3://" + bucket + "/" + key
  }

  /** The URI `upload_to_s3(bucket, local_path, key_prefix)` returns; the
      upload it performs is not modelled. */
  function UploadToS3(bucket: string, localPath: string, keyPrefix: string): string {
    S3Uri(bucket, ObjectKey(keyPrefix, localPath))
  }

  /** Reading a URI back as bucket and key: after "s3://", up to the first
      `/`, and the rest. */
  function ParseS3Uri(uri: string): Option<(string, string)> {
    if |uri| < 5 || uri[..5] != "s3://" then None
    else
      var rest := uri[5..];
      match IndexOf(rest, '/')
      case None => None
      case Some(i) => Some((rest[..i], rest[i + 1..]))
  }

  /** The URI of an upload names its bucket and key unambiguously when the
      bucket holds no `/`: parsing returns both. */
  lemma S3UriRoundTrip(bucket: string, key: string)
    requires '/' !in bucket
    ensures ParseS3Uri(S3Uri(bucket, key)) == Some((bucket, key))
  {
    var uri := S3Uri(bucket, key);
    assert uri[..5] == "s3://";
    var rest := uri[5..];
    assert rest == bucket + "/" + key;
    assert rest[|bucket|] == '/';
    assert forall i :: 0 <= i < |bucket| ==> rest[i] == bucket[i];
    assert forall i :: 0 <= i < |bucket| ==> rest[i] != '/';
    var r := IndexOf(rest, '/');
    assert r.Some?;
    assert r.value == |bucket|;
    assert rest[..|bucket|] == bucket;
    assert rest[|bucket| + 1..] == key;
  }

  /** The uploaded object's key is the prefix followed by the file's base
      name, and the URI ends with that key. */
  lemma UploadToS3Shape(bucket: string, localPath: string, keyPrefix: string)
    ensures var uri := UploadToS3(bucket, localPath, keyPrefix);
            uri[..5] == "s3://" &&
            uri[|uri| - |ObjectKey(keyPrefix, localPath)|..] == ObjectKey(keyPrefix, localPath) &&
            ObjectKey(keyPrefix, localPath)[..|keyPrefix|] == keyPrefix &&
            '/' !in ObjectKey(keyPrefix, localPath)[|keyPrefix|..]
  {
    var key := ObjectKey(keyPrefix, localPath);
    var uri := UploadToS3(bucket, localPath, keyPrefix);
    var head := "s3://" + bucket + "/";
    assert uri == head + key;
    CatParts(head, key);
    CatParts("s3://", bucket + "/");
    assert uri[..5] == head[..5] by {
      assert |head| >= 5;
    }
    CatParts(keyPrefix, Basename(localPath));
  }

  /** The two halves of a concatenation are read back by slicing. */
  lemma CatParts(a: string, b: string)
    ensures (a + b)[..|a|] == a && (a + b)[|a|..] == b
  {
  }

  // ---------------------------------------------------------------------------
  // main

  /** How many policies `main` retrieves. */
  const TopK: nat := 3

  /** The policy context `main` builds from the top policies. */
  function ContextOf(claimText: string, allPolicies: seq<Rag.Policy>, repr: Json -> string): string
    requires Rag.AllWellFormed(allPolicies)
  {
    Join(Rag.Entries(Rag.Retrieve(claimText, allPolicies, TopK), repr), "\n\n")
  }

  /** `invoke_messages_model([build_extraction_prompt(claim_text)], max_tokens=400, ...)`. */
  function ExtractionResponse(claimText: string, invoke: (Json, nat) -> Json): Json {
    invoke(JArr([PromptTemplates.BuildExtractionPrompt(claimText)]), 400)
  }

  /** `invoke_messages_model([build_summary_prompt(claim_text, policy_context)], max_tokens=500, ...)`. */
  function SummaryResponse(claimText: string, context: string, invoke: (Json, nat) -> Json): Json {
    invoke(JArr([PromptTemplates.BuildSummaryPrompt(claimText, context)]), 500)
  }

  /** The two responses `main` parses satisfy the types the text parser
      relies on (no truthy non-string part in a content list). */
  predicate ResponsesWellTyped(claimText: string, allPolicies: seq<Rag.Policy>, invoke: (Json, nat) -> Json,
                               repr: Json -> string) {
    Rag.AllWellFormed(allPolicies) &&
    WellTypedResponse(ExtractionResponse(claimText, invoke)) &&
    WellTypedResponse(SummaryResponse(claimText, ContextOf(claimText, allPolicies, repr), invoke))
  }

  /** The extraction response's text, as `main` reads it. */
  function ExtractionTextOf(claimText: string, invoke: (Json, nat) -> Json, dumps: Json -> string): string
    requires WellTypedResponse(ExtractionResponse(claimText, invoke))
  {
    ModelText(ExtractionResponse(claimText, invoke), dumps)
  }

  /** The summary response's text, as `main` reads it. */
  function SummaryTextOf(claimText: string, context: string, invoke: (Json, nat) -> Json, dumps: Json -> string): string
    requires WellTypedResponse(SummaryResponse(claimText, context, invoke))
  {
    ModelText(SummaryResponse(claimText, context, invoke), dumps)
  }

  /** The `output` dictionary `main` prints, for a claim file whose text is
      `claimText` and a policy file holding `allPolicies`. */
  function PipelineOutput(bucket: string, file: string, claimText: string, allPolicies: seq<Rag.Policy>,
                          invoke: (Json, nat) -> Json, loads: string -> Option<Json>, dumps: Json -> string,
                      repr: Json -> string): Dict
    requires ResponsesWellTyped(claimText, allPolicies, invoke, repr)
    requires DictOrFalsy(RecoverExtraction(ExtractionTextOf(claimText, invoke, dumps), loads))
  {
    var context := ContextOf(claimText, allPolicies, repr);
    var extracted := RecoverExtraction(ExtractionTextOf(claimText, invoke, dumps), loads);
    var summary := SummaryTextOf(claimText, context, invoke, dumps);
    Output(JStr(UploadToS3(bucket, file, DefaultKeyPrefix)), JObj(Validator.Validated(AsDict(extracted))),
           JStr(summary), JStr(context))
  }

  /** The `output` dictionary literal of `main`. */
  function Output(s3Uri: Json, extracted: Json, summary: Json, context: Json): (out: Dict)
    ensures out.Keys == {"s3_uri", "extracted", "summary", "policy_context_used"}
    ensures out["s3_uri"] == s3Uri && out["extracted"] == extracted
    ensures out["summary"] == summary && out["policy_context_used"] == context
  {
    OutputKeysDistinct();
    map["s3_uri" := s3Uri, "extracted" := extracted, "summary" := summary, "policy_context_used" := context]
  }

  /** The information-extraction step of `main()`: prompt the model, read its
      text, recover a JSON value from it and validate the fields. */
  method ExtractFields(claimText: string, invoke: (Json, nat) -> Json, loads: string -> Option<Json>,
                       dumps: Json -> string)
    returns (extractedValid: Dict)
    requires WellTypedResponse(ExtractionResponse(claimText, invoke))
    requires DictOrFalsy(RecoverExtraction(ExtractionTextOf(claimText, invoke, dumps), loads))
    ensures extractedValid == Validator.Validated(AsDict(RecoverExtraction(ExtractionTextOf(claimText, invoke, dumps), loads)))
    ensures forall k :: Validator.IsRequired(k) ==>
              k in extractedValid && (extractedValid[k].JStr? ==> |extractedValid[k].s| <= Validator.MaxFieldLength)
  {
    var extractionResp := invoke(JArr([PromptTemplates.BuildExtractionPrompt(claimText)]), 400);
    var extractionText := ParseModelTextOutput(extractionResp, dumps);
    var extracted := RecoverExtraction(extractionText, loads);
    extractedValid := Validator.ValidateExtraction(extracted);
    Validator.ValidatedKeys(AsDict(extracted));
    Validator.ValidatedBounded(AsDict(extracted));
  }

  /** `main()` once its arguments are parsed and its files read: upload,
      retrieve and format the top policies, extract and validate the fields,
      summarise. */
  method ProcessClaim(bucket: string, file: string, claimText: string, allPolicies: seq<Rag.Policy>,
                      invoke: (Json, nat) -> Json, loads: string -> Option<Json>, dumps: Json -> string,
                      repr: Json -> string)
    returns (output: Dict)
    requires ResponsesWellTyped(claimText, allPolicies, invoke, repr)
    requires DictOrFalsy(RecoverExtraction(ExtractionTextOf(claimText, invoke, dumps), loads))
    ensures output == PipelineOutput(bucket, file, claimText, allPolicies, invoke, loads, dumps, repr)
  {
    var s3Uri := UploadToS3(bucket, file, DefaultKeyPrefix);
    var topPolicies := Rag.RetrieveRelevantPolicies(claimText, allPolicies, TopK);
    var policyContext := Rag.FormatPolicyContext(topPolicies, repr);
    assert policyContext == ContextOf(claimText, allPolicies, repr);
    var extractedValid := ExtractFields(claimText, invoke, loads, dumps);
    var summaryResp := invoke(JArr([PromptTemplates.BuildSummaryPrompt(claimText, policyContext)]), 500);
    var summaryText := ParseModelTextOutput(summaryResp, dumps);
    assert summaryText == SummaryTextOf(claimText, policyContext, invoke, dumps);
    output := Output(JStr(s3Uri), JObj(extractedValid), JStr(summaryText), JStr(policyContext));
    PipelineOutputSteps(bucket, file, claimText, allPolicies, invoke, loads, dumps, repr);
  }

  /** `PipelineOutput` as the output dictionary of its four steps' results;
      it lets `ProcessClaim` match its results step by step. */
  lemma PipelineOutputSteps(bucket: string, file: string, claimText: string, allPolicies: seq<Rag.Policy>,
                            invoke: (Json, nat) -> Json, loads: string -> Option<Json>, dumps: Json -> string,
                            repr: Json -> string)
    requires ResponsesWellTyped(claimText, allPolicies, invoke, repr)
    requires DictOrFalsy(RecoverExtraction(ExtractionTextOf(claimText, invoke, dumps), loads))
    ensures PipelineOutput(bucket, file, claimText, allPolicies, invoke, loads, dumps, repr) ==
      Output(JStr(UploadToS3(bucket, file, DefaultKeyPrefix)),
             JObj(Validator.Validated(AsDict(RecoverExtraction(ExtractionTextOf(claimText, invoke, dumps), loads)))),
             JStr(SummaryTextOf(claimText, ContextOf(claimText, allPolicies, repr), invoke, dumps)),
             JStr(ContextOf(claimText, allPolicies, repr)))
  {
  }

  /** What the printed output guarantees: the extraction always holds the
      five required keys with capped strings, the context is built from at
      most three of the policies, best first, and an empty policy list gives
      an empty context. */
  lemma PipelineOutputProperties(bucket: string, file: string, claimText: string, allPolicies: seq<Rag.Policy>,
                                 invoke: (Json, nat) -> Json, loads: string -> Option<Json>, dumps: Json -> string,
                                 repr: Json -> string)
    requires ResponsesWellTyped(claimText, allPolicies, invoke, repr)
    requires DictOrFalsy(RecoverExtraction(ExtractionTextOf(claimText, invoke, dumps), loads))
    ensures var out := PipelineOutput(bucket, file, claimText, allPolicies, invoke, loads, dumps, repr);
            var top := Rag.Retrieve(claimText, allPolicies, TopK);
            out.Keys == {"s3_uri", "extracted", "summary", "policy_context_used"} &&
            (forall k :: Validator.IsRequired(k) ==>
               (k in out["extracted"].fields &&
                (out["extracted"].fields[k].JStr? ==> |out["extracted"].fields[k].s| <= Validator.MaxFieldLength))) &&
            |top| == Rag.Min(TopK, |allPolicies|) && multiset(top) <= multiset(allPolicies) &&
            (forall i, j :: 0 <= i < j < |top| ==>
               Rag.Overlap(Rag.Tokenize(claimText), top[i]) >= Rag.Overlap(Rag.Tokenize(claimText), top[j])) &&
            out["policy_context_used"] == JStr(Join(Rag.Entries(top, repr), "\n\n")) &&
            (allPolicies == [] ==> out["policy_context_used"] == JStr(""))
  {
    var extracted := RecoverExtraction(ExtractionTextOf(claimText, invoke, dumps), loads);
    Validator.ValidatedKeys(AsDict(extracted));
    Validator.ValidatedBounded(AsDict(extracted));
    Rag.RetrieveBoundedOrdered(claimText, allPolicies, TopK);
  }

  /** The four keys of the output differ (they differ in length). */
  lemma OutputKeysDistinct()
    ensures "s3_uri" != "extracted" && "s3_uri" != "summary" && "s3_uri" != "policy_context_used"
    ensures "extracted" != "summary" && "extracted" != "policy_context_used" && "summary" != "policy_context_used"
  {
    assert |"s3_uri"| == 6 && |"extracted"| == 9 && |"summary"| == 7 && |"policy_context_used"| == 19;
  }
}
