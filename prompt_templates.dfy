/**
  The two prompt builders of the claim pipeline (`app/prompt_templates.py`):
  each renders a fixed instruction around the claim text (and, for the
  summary, the retrieved policy context) into a single user message.
 */
module PromptTemplates {
  import opened Json
  import Validator

  // ---------------------------------------------------------------------------
  // Extraction prompt

  const ExtractionHeader := "Extract the following structured fields as JSON keys with concise values:\n"
  const ExtractionFooter := "If unavailable, use null. Do not include extra keys.\n\n"

  /** The instruction of the extraction prompt, as the source spells it. */
  const ExtractionInstruction :=
    ExtractionHeader
    + "- claimant_name\n" + "- incident_date\n" + "- claim_type\n" + "- policy_number\n" + "- amount_requested\n"
    + ExtractionFooter

  const ClaimLabel := "Claim text:\n"

  /** One bullet line `- key` per key, in order. */
  function Bullets(keys: seq<string>): string {
    if keys == [] then "" else "- " + keys[0] + "\n" + Bullets(keys[1..])
  }

  /** The text of the extraction prompt. */
  function ExtractionText(claimText: string): string {
    ExtractionInstruction + ClaimLabel + claimText
  }

  /** `build_extraction_prompt(claim_text)`. */
  function BuildExtractionPrompt(claimText: string): Json {
    UserMessage(JStr(ExtractionText(claimText)))
  }

  /** The bullet list of the instruction is exactly the validator's required
      keys, in the validator's order, between the fixed header and footer. */
  lemma ExtractionInstructionListsRequiredKeys()
    ensures ExtractionInstruction == ExtractionHeader + Bullets(Validator.RequiredKeys) + ExtractionFooter
  {
    var ks := Validator.RequiredKeys;
    assert ks == [ks[0], ks[1], ks[2], ks[3], ks[4]];
    BulletsOfFive(ks[0], ks[1], ks[2], ks[3], ks[4],
                  "- claimant_name\n", "- incident_date\n", "- claim_type\n",
                  "- policy_number\n", "- amount_requested\n");
    Regroup(ExtractionHeader, "- claimant_name\n", "- incident_date\n", "- claim_type\n",
            "- policy_number\n", "- amount_requested\n", ExtractionFooter);
  }

  lemma Regroup(h: string, la: string, lb: string, lc: string, ld: string, le: string, f: string)
    ensures h + la + lb + lc + ld + le + f == h + (la + lb + lc + ld + le) + f
  {
  }

  /** Five keys give five bullet lines, laid end to end. */
  lemma BulletsOfFive(a: string, b: string, c: string, d: string, e: string,
                      la: string, lb: string, lc: string, ld: string, le: string)
    requires la == "- " + a + "\n" && lb == "- " + b + "\n" && lc == "- " + c + "\n"
    requires ld == "- " + d + "\n" && le == "- " + e + "\n"
    ensures Bullets([a, b, c, d, e]) == la + lb + lc + ld + le
  {
    assert [e][1..] == [];
    assert Bullets([e]) == le;
    assert [d, e][1..] == [e];
    assert Bullets([d, e]) == ld + le;
    assert [c, d, e][1..] == [d, e];
    assert Bullets([c, d, e]) == lc + (ld + le);
    assert [b, c, d, e][1..] == [c, d, e];
    assert Bullets([b, c, d, e]) == lb + (lc + (ld + le));
    assert [a, b, c, d, e][1..] == [b, c, d, e];
    assert Bullets([a, b, c, d, e]) == la + (lb + (lc + (ld + le)));
  }

  /** The extraction text is the constant instruction and label followed by
      the claim text, which can be read back from it; distinct claims give
      distinct prompts. */
  lemma ExtractionTextLayout(claimText: string, other: string)
    ensures var t := ExtractionText(claimText);
            var n := |ExtractionInstruction + ClaimLabel|;
            |t| == n + |claimText| && t[..n] == ExtractionInstruction + ClaimLabel && t[n..] == claimText
    ensures ExtractionText(claimText) == ExtractionText(other) ==> claimText == other
  {
    var n := |ExtractionInstruction + ClaimLabel|;
    assert ExtractionText(claimText)[n..] == claimText;
    assert ExtractionText(other)[n..] == other;
  }

  /** The message is a single user turn whose one content part holds only
      the extraction text. */
  lemma ExtractionPromptShape(claimText: string)
    ensures var m := BuildExtractionPrompt(claimText);
            m.fields["role"] == JStr("user") && |m.fields["content"].items| == 1 &&
            m.fields["content"].items[0].fields.Keys == {"text"} &&
            m.fields["content"].items[0].fields["text"] == JStr(ExtractionText(claimText))
  {
  }

  // ---------------------------------------------------------------------------
  // Summary prompt

  /** The instruction of the summary prompt, as the source spells it. */
  const SummaryInstruction :=
    "Summarize this insurance claim in 5-7 sentences for a claims examiner. "
    + "Include key facts, estimated severity, and any policy constraints from the provided context."

  const ContextLabel := "\n\nPolicy context:\n"
  const ClaimSeparator := "\n\nClaim text:\n"

  /** The text of the summary prompt. */
  function SummaryText(claimText: string, policyContext: string): string {
    SummaryInstruction + ContextLabel + policyContext + ClaimSeparator + claimText
  }

  /** `build_summary_prompt(claim_text, policy_context)`. */
  function BuildSummaryPrompt(claimText: string, policyContext: string): Json {
    UserMessage(JStr(SummaryText(claimText, policyContext)))
  }

  /** Five pieces laid end to end are each found at their offset. */
  lemma {:induction false} PiecesAt(a: string, b: string, c: string, d: string, e: string)
    ensures var t := a + b + c + d + e;
            var n, m := |a| + |b|, |a| + |b| + |c| + |d|;
            |t| == m + |e| && t[..|a|] == a && t[|a|..] == b + c + d + e &&
            t[n..n + |c|] == c && t[m..] == e
  {
    var t := a + b + c + d + e;
    assert t == a + (b + c + d + e);
    assert t == (a + b) + (c + (d + e));
    assert t == (a + b + c + d) + e;
  }

  /** The summary text starts with the constant instruction and continues
      with "\n\nPolicy context:\n", the context, a blank line,
      "Claim text:\n" and the claim; knowing the context's length, both are
      read back. */
  lemma SummaryTextLayout(claimText: string, policyContext: string)
    ensures var t := SummaryText(claimText, policyContext);
            var n := |SummaryInstruction| + |ContextLabel|;
            var m := n + |policyContext| + |ClaimSeparator|;
            |t| == m + |claimText| &&
            t[..|SummaryInstruction|] == SummaryInstruction &&
            t[|SummaryInstruction|..] == ContextLabel + policyContext + ClaimSeparator + claimText &&
            t[n..n + |policyContext|] == policyContext &&
            t[m..] == claimText
  {
    PiecesAt(SummaryInstruction, ContextLabel, policyContext, ClaimSeparator, claimText);
  }

  /** Without its length the context cannot be told from the claim: a context
      that itself contains the claim separator renders the same text as a
      shorter context with a longer claim. */
  lemma SummaryTextAmbiguous()
    ensures SummaryText("c", "a" + ClaimSeparator + "b") == SummaryText("b" + ClaimSeparator + "c", "a")
  {
  }

  /** The message is a single user turn whose one content part holds only
      the summary text. */
  lemma SummaryPromptShape(claimText: string, policyContext: string)
    ensures var m := BuildSummaryPrompt(claimText, policyContext);
            m.fields["role"] == JStr("user") && |m.fields["content"].items| == 1 &&
            m.fields["content"].items[0].fields.Keys == {"text"} &&
            m.fields["content"].items[0].fields["text"] == JStr(SummaryText(claimText, policyContext))
  {
  }
}
