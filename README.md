# Claim-processing pipeline and Bedrock Lambda handler, modelled in Dafny

This project models two small Python components that talk to Amazon Bedrock.

**The claim-processing proof of concept** (`exercises/claim_processing_poc/app`):
- It uploads a claim document to S3.
- It retrieves the policy snippets whose words overlap most with the claim. This is a keyword-overlap retriever with a stable descending sort.
- It asks a model to extract five structured fields and to write a summary.
- It normalises the model's loosely shaped responses to text, and recovers a JSON object from the extraction text.
- It validates the extracted fields: the five required keys are always present, and their strings are capped at 500 characters.

**The Lambda handler** (`exercises/invoke_bedrock_fm/lambda/handler.py`):
- It routes an event on its `action`.
- Three of its handlers answer 400 before any service call when a parameter is missing.
- It builds text-generation requests, with a `{"raw": ...}` fallback for unparseable payloads.
- It folds a response stream into one string.

## Modules

| file | module | contents |
|---|---|---|
| `json.dfy` | `Json` | JSON values as `json.loads` yields them, and Python's truthiness, `dict.get`, `dict.get(k, default)` and `or` |
| `strings.dfy` | `Strings` | `str.split()`, `str.strip(chars)`, ASCII `str.lower()` and `sep.join(parts)`, with their laws |
| `rag.py` → `rag.dfy` | `Rag` | `_tokenize` → `Tokenize` (one word: `Token`); the score `len(q_tokens & _tokenize(text))` → `Overlap`; `retrieve_relevant_policies` → `Retrieve` (specification) and `RetrieveRelevantPolicies` (the loop, sort and slice), with `scored.sort(..., reverse=True)` → `SortDesc`; `format_policy_context` → `Entries` joined by `Join` (specification) and `FormatPolicyContext` (the loop) |
| `validator.py` → `validator.dfy` | `Validator` | `REQUIRED_KEYS` → `RequiredKeys`; `validate_extraction` → `Validated` (specification) and `ValidateExtraction` (the copy and loop) |
| `prompt_templates.py` → `prompt_templates.dfy` | `PromptTemplates` | `build_extraction_prompt` → `BuildExtractionPrompt` (its text: `ExtractionText`); `build_summary_prompt` → `BuildSummaryPrompt` (its text: `SummaryText`) |
| `main.py` → `claim_main.dfy` | `ClaimPipeline` | `parse_model_text_output` → `ModelText` (specification) and `ParseModelTextOutput` (the branches and loop); the JSON recovery in `main` → `RecoverExtraction`; `upload_to_s3`'s key and URI → `UploadToS3`; `main` → `PipelineOutput` (specification) and `ProcessClaim` (the steps) |
| `handler.py` → `handler.dfy` | `Handler` | `lambda_handler`'s dispatch → `Route`; `_handle_text_generate` → `HandleTextGenerate`; `_handle_text_stream` → `StreamText` (specification) and `HandleTextStream` (the loop); `_handle_async_status` → `HandleAsyncStatus`; `_handle_batch_submit` → `HandleBatchSubmit`; `_handle_batch_status` → `HandleBatchStatus` |

How the external pieces are modelled:
- Each external function is a function-typed parameter that is never interpreted:
  - `json.loads` is a partial function returning an `Option`;
  - `json.dumps` is a total function;
  - strict UTF-8 decoding is a partial function;
  - every Bedrock call is a function from its arguments to its result.
- An environment variable is an `Option<string>`, with `None` when it is unset.

Where the Python loops or mutates a local (`retrieve_relevant_policies`, `format_policy_context`, `validate_extraction`, the list branch of `parse_model_text_output`, the stream loop):
- it is a `method` with the same loop;
- that method is proved equal to a specification function;
- the properties are lemmas about that function.

Some inputs make the Python raise an exception it does not catch. Those inputs are excluded by preconditions:
- a truthy part of a content list that is not a string makes `"\n".join` raise `TypeError`;
- a policy whose "text" is present but not a string makes `_tokenize` raise `AttributeError` on `.split()`;
- a truthy `event` that is not a dict makes `event.get` raise `AttributeError`.

One precondition is a choice of the model, not an error of the program. The model takes the recovered `extracted` value to be a dict or falsy. On another truthy value, `dict(extracted or {})` raises for a string or a number, but builds a dict from a list of key/value pairs.

A policy's "title" and "text" are rendered by the f-string in `format_policy_context` whatever their type. A string is rendered as itself, and any other value by an uninterpreted `str` parameter (`Json.PyStr`).

### Behaviour worth noting

- `validate_extraction` copies every key it is given and adds the missing required ones (validator.py:12-15). Extra keys and their values, however long, come through unchanged (`Validator.ValidatedKeepsExtras`).
- `parse_model_text_output` consults `outputText`, `content` and `raw`, in that order, and never a top-level `text` (main.py:26-39, `ClaimPipeline.ModelTextIgnoresText`).
- In `_handle_text_stream`, a chunk whose bytes fail to decode is skipped by the `except` around the decode and adds nothing (handler.py:116-119, `Handler.ContributionSkips`).
- In the stream loop, a truthy `outputText` or `text` that is not a string makes `full_text += text_part` raise inside the `try` (handler.py:121-135). The `except` then appends the decoded chunk, so that case needs no precondition (`Handler.DecodedContributionCases`).
- The text normalisers can fail in two places:
  - `"\n".join` on a non-string part (main.py:38);
  - `_handle_text_generate`'s strict `decode("utf-8")`, which is modelled as a `None` result.

## Model

| member | source | states |
|---|---|---|
| Json.OrTruthy | exercises/claim_processing_poc/app/main.py:27 | `a or b` is one of its operands, and is truthy exactly when one of them is |
| Json.OrChain | exercises/claim_processing_poc/app/main.py:27 | `a or b or c` is its first truthy operand, else its last one, however it is bracketed |
| Json.AsDict | exercises/claim_processing_poc/app/validator.py:12 | `x or {}` on a dict-or-falsy value: the dict itself when truthy, the empty dict otherwise |
| Json.UserMessage | exercises/claim_processing_poc/app/prompt_templates.py:5-8 | a user message has exactly the keys role and content, role "user", and one content part whose only key is "text" |
| Strings.WhitespaceIsSpace | exercises/claim_processing_poc/app/rag.py:11 | the whitespace set that `strip()` removes is exactly the characters `split()` separates on |
| Strings.WordLength | exercises/claim_processing_poc/app/rag.py:11 | the first word ends at the first whitespace character, or at the end of the string |
| Strings.SplitWords | exercises/claim_processing_poc/app/rag.py:11 | `split()` yields only non-empty words without whitespace |
| Strings.SplitConcat | exercises/claim_processing_poc/app/rag.py:11 | the words of `split()`, concatenated, are exactly the non-whitespace characters in order: nothing is lost or reordered |
| Strings.NonSpaceAppend | exercises/claim_processing_poc/app/rag.py:11 | dropping whitespace distributes over concatenation |
| Strings.NonSpaceOfWord | exercises/claim_processing_poc/app/rag.py:11 | a word without whitespace is unchanged by dropping whitespace |
| Strings.WordLengthOfWord | exercises/claim_processing_poc/app/rag.py:11 | a whitespace-free string is one whole word |
| Strings.WordLengthOfWordThenSpace | exercises/claim_processing_poc/app/rag.py:11 | a word followed by a space ends at that space |
| Strings.SplitJoinRoundTrip | exercises/claim_processing_poc/app/rag.py:11 | splitting the space-join of non-empty whitespace-free words gives back those words |
| Strings.LeadShape | exercises/claim_processing_poc/app/rag.py:11 | the stripped prefix is the longest run of characters from the strip set |
| Strings.TrailShape | exercises/claim_processing_poc/app/rag.py:11 | the stripped suffix is the longest run of characters from the strip set |
| Strings.StripShape | exercises/claim_processing_poc/app/rag.py:11 | `strip(chars)` is a slice between an all-`chars` prefix and suffix; it neither starts nor ends with one of `chars`; it is empty exactly when the word is all `chars` |
| Strings.LowerIdempotent | exercises/claim_processing_poc/app/rag.py:11 | lowering twice is lowering once, and leaves no upper-case ASCII letter |
| Strings.WordLengthLower | exercises/claim_processing_poc/app/rag.py:11 | lowering does not move word boundaries |
| Strings.LowerSlices | exercises/claim_processing_poc/app/rag.py:11 | lowering commutes with taking a prefix or suffix |
| Strings.SplitLower | exercises/claim_processing_poc/app/rag.py:11 | splitting lowered text gives the lowered words, one for one |
| Strings.JoinSnoc | exercises/claim_processing_poc/app/rag.py:35 | joining one more part appends the separator and the part |
| Strings.JoinLength | exercises/claim_processing_poc/app/rag.py:35 | a join's length is the parts' total plus one separator between each pair |
| Strings.JoinPartAt | exercises/claim_processing_poc/app/rag.py:35 | each part appears verbatim at its offset in the join |
| Strings.JoinSepAt | exercises/claim_processing_poc/app/rag.py:35 | the separator sits between consecutive parts |
| Rag.TokenizeFilterIsVacuous | exercises/claim_processing_poc/app/rag.py:11 | the `if t.strip()` filter never removes a word, because `split()` yields no blank words |
| Rag.TokenShape | exercises/claim_processing_poc/app/rag.py:11 | a token has no upper-case ASCII letter and no whitespace, and neither starts nor ends with the stripped punctuation; it is empty exactly when its word is all punctuation |
| Rag.TokensAreTokensOfWords | exercises/claim_processing_poc/app/rag.py:11 | every token comes from some whitespace-free word of the text |
| Rag.TokenizeShape | exercises/claim_processing_poc/app/rag.py:11 | every element of the token set has the shape of a token |
| Rag.PunctuationWordGivesEmptyToken | exercises/claim_processing_poc/app/rag.py:11 | a word made only of punctuation puts the empty string in the token set |
| Rag.LowerKeepsPunctuation | exercises/claim_processing_poc/app/rag.py:11 | lowering neither creates nor destroys a punctuation character |
| Strings.LeadLower | exercises/claim_processing_poc/app/rag.py:11 | lowering does not change how much of the front is stripped |
| Strings.TrailLower | exercises/claim_processing_poc/app/rag.py:11 | lowering does not change how much of the back is stripped |
| Rag.StripLower | exercises/claim_processing_poc/app/rag.py:11 | stripping and lowering commute |
| Rag.TokenLower | exercises/claim_processing_poc/app/rag.py:11 | a lowered word has the same token |
| Rag.TokenizeLower | exercises/claim_processing_poc/app/rag.py:11 | tokenizing lowered text gives the same set: the tokenizer is case-insensitive |
| Rag.PlainToken | exercises/claim_processing_poc/app/rag.py:11 | a word without capitals, punctuation or whitespace is its own token |
| Rag.TokenizeJoined | exercises/claim_processing_poc/app/rag.py:11 | the token set of plain words joined by spaces is exactly the set of those words |
| Rag.OverlapBounds | exercises/claim_processing_poc/app/rag.py:21-23 | a score never exceeds the number of query tokens, and a policy without "text" scores 0 |
| Rag.PoliciesAppend | exercises/claim_processing_poc/app/rag.py:26 | the policies of a concatenated scored list are those of each piece, in order |
| Rag.InsertPermutes | exercises/claim_processing_poc/app/rag.py:25 | inserting adds exactly the one entry |
| Rag.InsertSorted | exercises/claim_processing_poc/app/rag.py:25 | inserting into a descending list keeps it descending |
| Rag.InsertWithScore | exercises/claim_processing_poc/app/rag.py:25 | inserting puts the new entry ahead of every entry with the same score |
| Rag.SortDescSorted | exercises/claim_processing_poc/app/rag.py:25 | the sort's result is in non-increasing order of score |
| Rag.SortDescPermutes | exercises/claim_processing_poc/app/rag.py:25 | the sort's result is a permutation of its input |
| Rag.SortDescPermutesPolicies | exercises/claim_processing_poc/app/rag.py:25 | the sorted policies are a permutation of the input policies |
| Rag.SortDescProperties | exercises/claim_processing_poc/app/rag.py:25 | the sort is descending, a permutation, and length-preserving |
| Rag.SortDescStable | exercises/claim_processing_poc/app/rag.py:25 | the sort is stable: entries of any one score keep their input order |
| Rag.WithScoreNonEmpty | exercises/claim_processing_poc/app/rag.py:25 | the entries of a score are non-empty only if some entry has that score |
| Rag.WithScoreOfHead | exercises/claim_processing_poc/app/rag.py:25 | the first entry's score has at least one entry |
| Rag.SameTopScore | exercises/claim_processing_poc/app/rag.py:25 | two descending lists with the same entries per score start with the same score |
| Rag.WithScoreTails | exercises/claim_processing_poc/app/rag.py:25 | such lists share their first entry, and their tails again agree per score |
| Rag.StableSortUnique | exercises/claim_processing_poc/app/rag.py:25 | two descending lists that agree on the entries of every score are equal |
| Rag.SortDescIsTheStableSort | exercises/claim_processing_poc/app/rag.py:25 | any descending list with the input's entries per score is the sort's result, so the model is Python's stable `sort(reverse=True)` |
| Rag.Ranked | exercises/claim_processing_poc/app/rag.py:18-25 | one ranked entry per policy |
| Rag.Retrieve | exercises/claim_processing_poc/app/rag.py:14-26 | every retrieved policy has a string "text" or none, like every input policy |
| Rag.RetrieveRelevantPolicies | exercises/claim_processing_poc/app/rag.py:14-26 | the loop, sort and slice compute the specified top-k, and return `min(k, len(policies))` policies |
| Rag.ConsistentPerm | exercises/claim_processing_poc/app/rag.py:24-25 | reordering the scored list keeps every entry's score equal to its policy's overlap |
| Rag.RankedProperties | exercises/claim_processing_poc/app/rag.py:18-25 | the ranked list is consistent, descending, holds each input policy once per occurrence, and is stable per score |
| Rag.RetrieveBoundedOrdered | exercises/claim_processing_poc/app/rag.py:14-26 | the result has `min(k, n)` policies drawn from the input (as a multiset), in non-increasing order of overlap |
| Rag.RankedSplit | exercises/claim_processing_poc/app/rag.py:26 | the policies left out are exactly those ranked after the first `k` |
| Rag.SortedPrefixBeatsRest | exercises/claim_processing_poc/app/rag.py:25-26 | in a descending list, every entry of a prefix scores at least as much as any policy after it |
| Rag.LeftOutScore | exercises/claim_processing_poc/app/rag.py:25-26 | a policy left out scores no more than any policy kept |
| Rag.RetrieveBeatsLeftOut | exercises/claim_processing_poc/app/rag.py:14-26 | every returned policy scores at least as much as every policy that was not returned |
| Rag.OfScorePolicies | exercises/claim_processing_poc/app/rag.py:24-26 | the policies of one score in a consistent scored list are its per-score entries' policies |
| Rag.WithScorePrefix | exercises/claim_processing_poc/app/rag.py:26 | slicing splits the per-score entries at the same point |
| Rag.RetrieveStable | exercises/claim_processing_poc/app/rag.py:14-26 | ties keep input order: the returned policies of any score are a prefix of the input's policies of that score |
| Rag.RetrieveOfTwo | exercises/claim_processing_poc/app/rag.py:14-26 | of two policies, the first is the top-1 whenever it scores at least as much as the second |
| Rag.ExampleWordsPlain | exercises/claim_processing_poc/app/rag.py:11 | the words of the worked scenario are plain |
| Rag.ExampleQueryTokens | exercises/claim_processing_poc/app/rag.py:18 | "my house had flood damage" tokenizes to its five words |
| Rag.PolicyOfWords | exercises/claim_processing_poc/app/rag.py:21-22 | a policy whose text is plain words has exactly those words as tokens |
| Rag.ExampleTextTokensA | exercises/claim_processing_poc/app/rag.py:21-22 | "flood damage covered" tokenizes to its three words |
| Rag.ExampleTextTokensB | exercises/claim_processing_poc/app/rag.py:21-22 | "fire damage excluded" tokenizes to its three words |
| Rag.ExampleIntersections | exercises/claim_processing_poc/app/rag.py:23 | the scenario's token overlaps have sizes 2 and 1 |
| Rag.ExampleOverlaps | exercises/claim_processing_poc/app/rag.py:18-24 | in the scenario, policy A scores 2 and policy B scores 1 |
| Rag.RetrieveExample | exercises/claim_processing_poc/app/rag.py:14-26 | for "my house had flood damage", the top-1 of A ("flood damage covered") and B ("fire damage excluded") is A |
| Rag.EntriesAppend | exercises/claim_processing_poc/app/rag.py:31-34 | the entries of concatenated policy lists are those of each list, in order |
| Rag.EntryOfStrings | exercises/claim_processing_poc/app/rag.py:32-34 | a policy with a string title and text renders as the title, ":\n" and the text |
| Rag.FormatPolicyContext | exercises/claim_processing_poc/app/rag.py:29-35 | the loop and join give the entries joined by "\n\n"; an empty list gives "" |
| Rag.FormatPolicyContextLayout | exercises/claim_processing_poc/app/rag.py:29-35 | entry i sits verbatim at its offset in the context, followed by "\n\n" unless it is the last |
| Rag.EntryParts | exercises/claim_processing_poc/app/rag.py:32-34 | an entry is the title (default "Policy"), ":\n" and the text (default ""), each rendered by `str` unless it is a string |
| Validator.RequiredKeysDistinct | exercises/claim_processing_poc/app/validator.py:4 | there are five required keys, all distinct |
| Validator.ValidateExtraction | exercises/claim_processing_poc/app/validator.py:7-19 | the copy-and-loop computes the specified validated mapping |
| Validator.ValidatedKeys | exercises/claim_processing_poc/app/validator.py:12-16 | the keys are the input's keys plus the required ones, and every required key is present |
| Validator.ValidatedRequired | exercises/claim_processing_poc/app/validator.py:14-18 | a missing required key becomes `None`; a longer string is cut to its first 500 characters, so it has exactly 500; any other value is unchanged |
| Validator.ValidatedKeepsExtras | exercises/claim_processing_poc/app/validator.py:12 | keys outside the required five keep their values, however long |
| Validator.ValidatedBounded | exercises/claim_processing_poc/app/validator.py:17-18 | no required string exceeds 500 characters afterwards |
| Validator.ValidatedFalsy | exercises/claim_processing_poc/app/validator.py:12-16 | `None` or `{}` yields exactly the five keys, all `None` |
| Validator.ValidatedIdempotent | exercises/claim_processing_poc/app/validator.py:7-19 | validating an already validated mapping changes nothing |
| PromptTemplates.ExtractionInstructionListsRequiredKeys | exercises/claim_processing_poc/app/prompt_templates.py:9-11 | the extraction instruction's bullet list is exactly the validator's five keys, in order, between a fixed header and footer |
| PromptTemplates.ExtractionTextLayout | exercises/claim_processing_poc/app/prompt_templates.py:8-12 | the extraction text is the constant instruction and "Claim text:\n" followed by the claim, which can be read back; distinct claims give distinct texts |
| PromptTemplates.ExtractionPromptShape | exercises/claim_processing_poc/app/prompt_templates.py:4-15 | the prompt is a user message with a single content part holding only the extraction text |
| PromptTemplates.SummaryTextLayout | exercises/claim_processing_poc/app/prompt_templates.py:22-29 | the summary text is the constant instruction, then "\n\nPolicy context:\n", the context, "\n\nClaim text:\n" and the claim, each part at its offset |
| PromptTemplates.SummaryTextAmbiguous | exercises/claim_processing_poc/app/prompt_templates.py:25-28 | a context containing "\n\nClaim text:\n" renders the same text as a shorter context with a longer claim |
| PromptTemplates.SummaryPromptShape | exercises/claim_processing_poc/app/prompt_templates.py:18-31 | the prompt is a user message with a single content part holding only the summary text |
| ClaimPipeline.CollectTextParts | exercises/claim_processing_poc/app/main.py:31-36 | the loop collects exactly the specified parts |
| ClaimPipeline.ParseModelTextOutput | exercises/claim_processing_poc/app/main.py:24-39 | the function's branches compute the specified text |
| ClaimPipeline.TextPartsAppend | exercises/claim_processing_poc/app/main.py:31-36 | the parts of a concatenated list are the parts of each piece, in order |
| ClaimPipeline.TextPartsOfOne | exercises/claim_processing_poc/app/main.py:33-36 | an element contributes its truthy `text`, else its truthy `raw`, as long as it is a dict; otherwise nothing |
| ClaimPipeline.TextPartsFromItems | exercises/claim_processing_poc/app/main.py:31-36 | every part is a non-empty string taken from some element, and there are no more parts than elements |
| ClaimPipeline.ModelTextString | exercises/claim_processing_poc/app/main.py:27-29 | the first truthy of `outputText` and `content` is returned when it is a string; when both are falsy, a string `raw` is returned as is, even when empty |
| ClaimPipeline.ModelTextFallbacks | exercises/claim_processing_poc/app/main.py:30-39 | a list value gives its parts joined by "\n"; no parts, any other value, or a non-dict response gives `json.dumps` of the response |
| ClaimPipeline.ModelTextNoKnownKey | exercises/claim_processing_poc/app/main.py:27-39 | a dict with none of the three keys is serialised |
| ClaimPipeline.ModelTextIgnoresText | exercises/claim_processing_poc/app/main.py:27 | setting a top-level "text" never changes the chosen content, nor the result outside the serialising fallback |
| ClaimPipeline.ModelTextOfRawFallback | exercises/claim_processing_poc/app/model_invoker.py:43 | the invoker's `{"raw": text}` fallback is read back as exactly that text |
| ClaimPipeline.ModelTextExamples | exercises/claim_processing_poc/app/main.py:24-39 | `{"outputText": "hello"}` gives "hello"; a content list of two texts "a" and "b" gives "a\nb" |
| ClaimPipeline.IndexOf | exercises/claim_processing_poc/app/main.py:67 | `index` finds the first occurrence, and fails exactly when there is none |
| ClaimPipeline.RIndexOf | exercises/claim_processing_poc/app/main.py:68 | `rindex` finds the last occurrence, and fails exactly when there is none |
| ClaimPipeline.IndexOfFound | exercises/claim_processing_poc/app/main.py:67-68 | both searches succeed exactly when the character occurs |
| ClaimPipeline.BraceSliceShape | exercises/claim_processing_poc/app/main.py:66-69 | a candidate slice exists exactly when both braces occur; it runs from the first "{" through the last "}" when they are in that order, and is empty otherwise |
| ClaimPipeline.RecoverExtractionCases | exercises/claim_processing_poc/app/main.py:62-71 | the whole text's value when it parses; otherwise the slice's value when it parses; otherwise `{}`, including when a brace is missing |
| ClaimPipeline.Basename | exercises/claim_processing_poc/app/main.py:14 | the base name is the suffix after the last "/" (the whole path when there is none), and holds no "/" |
| ClaimPipeline.S3UriRoundTrip | exercises/claim_processing_poc/app/main.py:16 | for a bucket without "/", the returned URI parses back to exactly the bucket and the key |
| ClaimPipeline.UploadToS3Shape | exercises/claim_processing_poc/app/main.py:12-16 | the URI starts with "s3://" and ends with the key, which is the prefix followed by a "/"-free base name |
| ClaimPipeline.ExtractFields | exercises/claim_processing_poc/app/main.py:57-73 | the extraction step validates the JSON value recovered from the model's text, so every required key is present and no required string exceeds 500 characters |
| ClaimPipeline.ProcessClaim | exercises/claim_processing_poc/app/main.py:49-85 | the pipeline's steps compute the specified output dictionary |
| ClaimPipeline.PipelineOutputProperties | exercises/claim_processing_poc/app/main.py:49-85 | the output has its four keys; the extraction holds the five required keys with capped strings; the context joins at most three input policies, in non-increasing order of overlap with the claim, and is "" without policies |
| Handler.RouteIff | exercises/invoke_bedrock_fm/lambda/handler.py:12-23 | an event reaches a named handler if and only if its action is that name, and reaches video generation if and only if its action names none of the five |
| Handler.RouteDefaults | exercises/invoke_bedrock_fm/lambda/handler.py:12-23 | a `None` or empty event, a missing action, or a non-string action goes to video generation |
| Handler.RouteRoundTrip | exercises/invoke_bedrock_fm/lambda/handler.py:12-23 | sending an action's own name reaches that action |
| Handler.AsyncStatusRejects | exercises/invoke_bedrock_fm/lambda/handler.py:144-146 | the answer is 400 exactly when `invocationArn` is missing or falsy; it is then "invocationArn is required", whatever the service would answer |
| Handler.AsyncStatusAccepts | exercises/invoke_bedrock_fm/lambda/handler.py:147-154 | otherwise the answer is 200, echoes the ARN, and carries the service's status and whole answer |
| Handler.BatchSubmitRejects | exercises/invoke_bedrock_fm/lambda/handler.py:157-164 | the answer is 400 exactly when one of roleArn, inputS3Uri and outputS3Uri is missing or falsy; no job is then created |
| Handler.BatchRequestDefaults | exercises/invoke_bedrock_fm/lambda/handler.py:157-161 | modelId is the event's when truthy, else TEXT_MODEL_ID, else "amazon.nova-micro-v1:0"; jobName is the event's when present, else "bedrock-batch-job" |
| Handler.BatchSubmitAccepts | exercises/invoke_bedrock_fm/lambda/handler.py:166-178 | an accepted submission answers 200, with the created job's ARN and the model used |
| Handler.BatchStatusRejects | exercises/invoke_bedrock_fm/lambda/handler.py:181-183 | the answer is 400 exactly when `jobArn` is missing or falsy; it is then "jobArn is required", whatever the service would answer |
| Handler.BatchStatusAccepts | exercises/invoke_bedrock_fm/lambda/handler.py:184-191 | otherwise the answer is 200, echoes the ARN, and carries the job's status and whole description |
| Handler.GeneratedDataCases | exercises/invoke_bedrock_fm/lambda/handler.py:79-83 | a parsing payload is returned parsed; otherwise it becomes `{"raw": decoded}`; the handler fails exactly when the payload neither parses nor decodes |
| Handler.TextGenerateRequest | exercises/invoke_bedrock_fm/lambda/handler.py:63-89 | the request carries the event's prompt (or the default) in one user message to the configured model; the answer is 200, names that model, and carries the data |
| Handler.HandleTextStream | exercises/invoke_bedrock_fm/lambda/handler.py:92-141 | the loop's body is the specified streamed text, in a 200 answer naming the model |
| Handler.StreamTextAppend | exercises/invoke_bedrock_fm/lambda/handler.py:107-135 | the streamed text of two consecutive parts of a stream is the concatenation of theirs, in arrival order |
| Handler.StreamTextOne | exercises/invoke_bedrock_fm/lambda/handler.py:108-135 | a single event yields its own contribution |
| Handler.StreamTextSkips | exercises/invoke_bedrock_fm/lambda/handler.py:110-119 | an event without chunk or bytes, or with bytes that fail to decode, leaves the text as if it had not arrived |
| Handler.ContributionSkips | exercises/invoke_bedrock_fm/lambda/handler.py:110-119 | such events contribute "" |
| Handler.DecodedContributionCases | exercises/invoke_bedrock_fm/lambda/handler.py:121-135 | a dict contributes its non-empty string outputText (else text); a dict without either, a non-string field, non-dict JSON, or unparseable text contributes the decoded chunk |

## Left out

- Bedrock calls are not modelled; their results are parameters. This covers `invoke_model`, `invoke_model_with_response_stream`, `start_async_invoke`, `get_async_invoke_status`, `create_model_invocation_job` and `get_model_invocation_job`, because they are network clients.
- The S3 `upload_file` is not modelled; only the key and URI that `upload_to_s3` computes are.
- `_handle_video_generate` is left out: a constant request body, `random.randint` and a service call. Routing to it is modelled (`Handler.Route`).
- `lambda_handler`'s call into the chosen handler is left out. `Handler.Route` returns which handler runs; each handler is modelled on its own.
- `model_invoker.py` is not part of this model, apart from its `{"raw": ...}` fallback shape (`ClaimPipeline.ModelTextOfRawFallback`).
- `load_policies`, `read_text`, argument parsing in `main` and the final `print` are left out: file I/O, the command line and output. `ProcessClaim` takes the claim text and the policies as values.
- Environment variables are passed as `Option<string>` values, and client construction (`boto3.client`, `AWS_REGION`) is omitted.
- The internals of `json.loads`, `json.dumps` and UTF-8 decoding are not modelled; they are uninterpreted parameters. `json.dumps`' `ensure_ascii` and `indent` options are left out with them.
- Strings.Lower: only ASCII letters are lowered, not all of Unicode, so `str.lower()` on non-ASCII text is not captured.
- Key order of Python dicts is not modelled, because maps are unordered. Beyond the printed output, three things depend on it:
  - the `json.dumps(resp)` fallback of `parse_model_text_output` (main.py:39), whose text can become the extraction text and the "summary" value;
  - the f-string rendering of a dict-valued title or text in `format_policy_context` (rag.py:34).

  The model's `dumps` and `str` parameters act on unordered maps, so they cannot tell apart two responses that differ only in key order.
- Negative or non-integer `k` in `retrieve_relevant_policies` is left out; `k` is a `nat`.
- Rag.RetrieveRelevantPolicies: Python sorts `scored` in place; the model sorts a value with a stable insertion sort, proved equal to any stable descending sort (`Rag.SortDescIsTheStableSort`). Aliasing of the returned dicts with the input is not captured.
- Validator.ValidateExtraction: `dict(...)` makes a fresh copy; the model works on immutable maps, so the copy's independence from the caller's dict is not stated.
- Inputs on which the Python raises are preconditions: non-string truthy list parts (`TypeError`), a non-dict truthy `event` (`AttributeError`), and a non-string "text" in a policy given to retrieval (`AttributeError`).
- Validator.ValidateExtraction: a truthy non-dict `extracted` is excluded by the model. For a list of key/value pairs, `dict(...)` would build a dict that the model does not cover; other values raise.
- `str()` of a non-string JSON value is not interpreted. It is a parameter of `format_policy_context` and of the pipeline.
- ClaimPipeline.Basename: models POSIX `os.path.basename` only, splitting at "/". Windows separators are not modelled.
- The inference fields other than those in the text-generation body (temperature of the pipeline's model calls, `topK` defaults of the invoker) are left out with the invoker. Floats are exact reals.
- JSON numbers are a single `real`. Python's `int` and `float` are not told apart, though `1` and `1.0` render differently through `str()` (rag.py:34) and `json.dumps` (main.py:39). The `NaN` and `Infinity` that `json.loads` accepts cannot be represented.
