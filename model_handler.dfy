/**
 * The answer side of the bot (`LLMHandler.generate_response`): the prompt
 * built around the retrieved context and the question, and the extraction of
 * the answer from the text the generation pipeline returns.
 *
 * The pipeline itself (a sampling language model) is a function parameter.
 */
module ModelHandler {
  import opened Text

  /**
   * The example request body shown in the prompt and in the fallback answer.
   * Long texts are written as concatenations of short literals, one per line
   * of the text; the value is the same.
   */
  const ExampleJson: string :=
    "{\n"
    + "    \"filters\": [\n"
    + "        {\n"
    + "            \"filter_type\": \"CURRENT_COMPANY\",\n"
    + "            \"type\": \"in\",\n"
    + "            \"value\": [\"example_company\"]\n"
    + "        },\n"
    + "        {\n"
    + "            \"filter_type\": \"CURRENT_TITLE\",\n"
    + "            \"type\": \"in\",\n"
    + "            \"value\": [\"example_title\"]\n"
    + "        },\n"
    + "        {\n"
    + "            \"filter_type\": \"REGION\",\n"
    + "            \"type\": \"in\",\n"
    + "            \"value\": [\"example_location\"]\n"
    + "        }\n"
    + "    ],\n"
    + "    \"page\": 1\n"
    + "}"

  const ResponseMarker: string := "Response:"
  const QuestionMarker: string := "Question:"
  const AnswerMarker: string := "To search for"

  /** The worked curl example, which opens with the answer marker; it is also the answer given when the extracted one is empty. */
  const CurlExample: string :=
    AnswerMarker + " people, use the api.crustdata.com"
    + "/screener/person/search endpoint. "
    + "Here's an example curl request:\n\n"
    + "curl --location "
    + "'https://api.crustdata.com/screener/person/search' \\\n"
    + "--header 'Content-Type: application/json' \\\n"
    + "--header 'Authorization: Token $token' \\\n"
    + "--data '" + ExampleJson + "'"

  const PromptIntro: string :=
    "You are an API documentation expert. "
    + "Based on the provided API documentation, "
    + "generate a response that shows "
    + "how to use the API endpoint "
    + "with a specific example.\n\n"
    + "API Documentation:\n"

  const QuestionLabel: string := "\n\nQuestion: "

  const FormatRequest: string := "\n\nGenerate a response " + "in this format:\n" + CurlExample + "\n\n"

  /** Everything after the question: the requested format and the closing marker. */
  const PromptOutro: string := FormatRequest + ResponseMarker

  const ErrorReply: string := "Error generating response. Please try again."

  /** The prompt: the fixed template with the context and then the question inserted verbatim. */
  function Prompt(context: string, question: string): string {
    PromptIntro + context + QuestionLabel + question + PromptOutro
  }

  /** What the pipeline call `self.pipeline(prompt)[0]['generated_text']` gives: a text, or an exception. */
  datatype PipelineOutput = Generated(text: string) | PipelineFailure

  /** The extracted answer, or the IndexError of `.split("To search for")[1]`. */
  datatype Extraction = Answer(text: string) | IndexError

  /** `generated.split("Response:")[-1]`: the text after the last "Response:". */
  function ResponseSegment(generated: string): string {
    Split(generated, ResponseMarker)[|Split(generated, ResponseMarker)| - 1]
  }

  /** `generated.split("Question:")[-1]`: the text after the last "Question:". */
  function QuestionSegment(generated: string): string {
    Split(generated, QuestionMarker)[|Split(generated, QuestionMarker)| - 1]
  }

  /**
   * The answer part of a generated text: after the last "Response:" when there
   * is one, otherwise between the first and second "To search for" after the
   * last "Question:"; stripped of surrounding whitespace.
   */
  function Extract(generated: string): (r: Extraction)
    ensures r.Answer? ==> !IsBlank(r.text) && Strip(r.text) == r.text
  {
    if Contains(generated, ResponseMarker) then
      var after := ResponseSegment(generated);
      StripIdempotent(after);
      Answer(Strip(after))
    else
      var parts := Split(QuestionSegment(generated), AnswerMarker);
      if |parts| < 2 then IndexError
      else
        StripIdempotent(parts[1]);
        Answer(Strip(parts[1]))
  }

  /**
   * The `try` block after the pipeline call: the error reply on a failed call
   * or a missing answer marker, the curl example for an empty answer, the
   * answer otherwise. Whichever path is taken, the reply is not empty and has
   * no surrounding whitespace.
   */
  function Reply(out: PipelineOutput): (r: string)
    ensures r != "" && Strip(r) == r
  {
    match out
    case PipelineFailure =>
      ErrorReplyStripped();
      ErrorReply
    case Generated(text) =>
      match Extract(text)
      case IndexError =>
        ErrorReplyStripped();
        ErrorReply
      case Answer(answer) =>
        if answer == "" || IsBlank(answer) then
          CurlExampleStripped();
          CurlExample
        else answer
  }

  /**
   * `generate_response(question, context)`: never fails and never returns the
   * empty string or a padded one; a failed pipeline call or a missing answer
   * marker gives the error reply, an empty answer the curl example.
   */
  function GenerateResponse(question: string, context: string, pipeline: string -> PipelineOutput): (r: string)
    ensures r != "" && Strip(r) == r
    ensures pipeline(Prompt(context, question)).PipelineFailure? ==> r == ErrorReply
    ensures var out := pipeline(Prompt(context, question));
      out.Generated? && Extract(out.text).IndexError? ==> r == ErrorReply
    ensures var out := pipeline(Prompt(context, question));
      out.Generated? && Extract(out.text).Answer? ==>
        r == if Extract(out.text).text == "" then CurlExample else Extract(out.text).text
  {
    Reply(pipeline(Prompt(context, question)))
  }

  // ---------------------------------------------------------------------
  // Properties
  // ---------------------------------------------------------------------

  /** The curl example neither starts nor ends with whitespace. */
  lemma CurlExampleStripped()
    ensures Strip(CurlExample) == CurlExample
  {
    assert CurlExample[0] == AnswerMarker[0] == 'T';
    assert CurlExample[|CurlExample| - 1] == '\'';
    SolidEndsUnchanged(CurlExample);
  }

  /** The error reply neither starts nor ends with whitespace. */
  lemma ErrorReplyStripped()
    ensures Strip(ErrorReply) == ErrorReply
  {
    assert ErrorReply[0] == 'E' && ErrorReply[|ErrorReply| - 1] == '.';
    SolidEndsUnchanged(ErrorReply);
  }

  /** A text that neither starts nor ends with whitespace is its own stripped form. */
  lemma SolidEndsUnchanged(s: string)
    requires |s| > 0 && !IsSpace(s[0]) && !IsSpace(s[|s| - 1])
    ensures Strip(s) == s
  {
    assert ContentStart(s) == 0;
    assert ContentEnd(s, 0) == |s|;
  }

  /** The context sits right after the introduction, and the question after the context. */
  lemma PromptPlacement(context: string, question: string)
    ensures var p := Prompt(context, question);
      var at := |PromptIntro| + |context| + |QuestionLabel|;
      && OccursAt(p, context, |PromptIntro|)
      && OccursAt(p, question, at)
  {
    InsertedPlacement(PromptIntro, context, QuestionLabel, question, PromptOutro);
  }

  lemma InsertedPlacement(intro: string, context: string, marker: string, question: string, outro: string)
    ensures var p := intro + context + marker + question + outro;
      && OccursAt(p, context, |intro|)
      && OccursAt(p, question, |intro| + |context| + |marker|)
  {
    var p := intro + context + marker + question + outro;
    var at := |intro| + |context| + |marker|;
    assert p == intro + context + (marker + question + outro);
    assert p[|intro|..|intro| + |context|] == context;
    OccursAtSlice(p, context, |intro|);
    assert p == (intro + context + marker) + question + outro;
    assert p[at..at + |question|] == question;
    OccursAtSlice(p, question, at);
  }

  /**
   * With a "Response:" in the generated text, the answer is the stripped text
   * after its last occurrence, and so holds no "Response:" itself.
   */
  lemma ResponseBranch(generated: string) returns (i: nat)
    requires Contains(generated, ResponseMarker)
    ensures OccursAt(generated, ResponseMarker, i)
    ensures !Contains(generated[i + |ResponseMarker|..], ResponseMarker)
    ensures Extract(generated) == Answer(Strip(generated[i + |ResponseMarker|..]))
    ensures !Contains(Extract(generated).text, ResponseMarker)
  {
    i := SplitLastPiece(generated, ResponseMarker);
    var after := ResponseSegment(generated);
    assert after == generated[i + |ResponseMarker|..];
    if Contains(Strip(after), ResponseMarker) {
      StripKeepsSubstrings(after, ResponseMarker);
    }
  }

  /**
   * Without a "Response:", the extraction fails with the IndexError exactly
   * when the text after the last "Question:" has no "To search for"; that
   * text is the whole generated text when it has no "Question:".
   */
  lemma QuestionBranchFails(generated: string)
    requires !Contains(generated, ResponseMarker)
    ensures !Contains(QuestionSegment(generated), QuestionMarker)
    ensures !Contains(generated, QuestionMarker) ==> QuestionSegment(generated) == generated
    ensures Extract(generated).IndexError? <==> !Contains(QuestionSegment(generated), AnswerMarker)
  {
    SplitPiecesLackSeparator(generated, QuestionMarker);
  }

  /**
   * Without a "Response:", a successful extraction is the stripped text between
   * the first "To search for" after the last "Question:" and the next one (or the end).
   */
  lemma QuestionBranchAnswer(generated: string) returns (i: nat, j: nat)
    requires !Contains(generated, ResponseMarker)
    requires Contains(QuestionSegment(generated), AnswerMarker)
    ensures var segment := QuestionSegment(generated);
      && OccursAt(segment, AnswerMarker, i) && !Contains(segment[..i], AnswerMarker)
      && (forall k: nat :: k < i ==> !OccursAt(segment, AnswerMarker, k))
      && i + |AnswerMarker| <= j <= |segment|
      && !Contains(segment[i + |AnswerMarker|..j], AnswerMarker)
      && (j == |segment| || OccursAt(segment, AnswerMarker, j))
      && Extract(generated) == Answer(Strip(segment[i + |AnswerMarker|..j]))
  {
    var segment := QuestionSegment(generated);
    i := SplitSecondPiece(segment, AnswerMarker);
    var piece := Split(segment, AnswerMarker)[1];
    j := i + |AnswerMarker| + |piece|;
    assert segment[i + |AnswerMarker|..j] == piece;
  }

  /**
   * The pipeline normally hands back the prompt followed by the continuation.
   * Since the prompt ends in "Response:", the answer is then the stripped
   * continuation, as long as the continuation has no "Response:" of its own.
   */
  lemma EchoedPromptAnswer(context: string, question: string, continuation: string)
    requires !Contains(continuation, ResponseMarker)
    ensures Extract(Prompt(context, question) + continuation) == Answer(Strip(continuation))
  {
    var body := PromptIntro + context + QuestionLabel + question;
    MarkerThenContinuation(body + FormatRequest, continuation);
    AppendRegroup(body, FormatRequest, ResponseMarker, continuation);
  }

  /**
   * Regrouping a concatenation, stated over plain strings so that proofs about
   * the prompt do not have to reason about the template's text.
   */
  lemma AppendRegroup(a: string, b: string, c: string, d: string)
    ensures a + (b + c) + d == a + b + c + d
  {
  }

  /** After a last "Response:" comes the answer: nothing before it matters. */
  lemma MarkerThenContinuation(head: string, continuation: string)
    requires !Contains(continuation, ResponseMarker)
    ensures Extract(head + ResponseMarker + continuation) == Answer(Strip(continuation))
  {
    var text := head + ResponseMarker + continuation;
    var m := |head|;
    assert text[m..m + |ResponseMarker|] == ResponseMarker;
    OccursAtSlice(text, ResponseMarker, m);
    var i := ResponseBranch(text);
    LastMarkerAt(head, continuation, i);
    assert text[i + |ResponseMarker|..] == continuation;
  }

  /** The only "Response:" with none after it is the one right before the continuation. */
  lemma LastMarkerAt(head: string, continuation: string, i: nat)
    requires !Contains(continuation, ResponseMarker)
    requires OccursAt(head + ResponseMarker + continuation, ResponseMarker, i)
    requires !Contains((head + ResponseMarker + continuation)[i + |ResponseMarker|..], ResponseMarker)
    ensures i == |head|
  {
    var text := head + ResponseMarker + continuation;
    var m := |head|;
    var n := |ResponseMarker|;
    assert text[m..m + n] == ResponseMarker;
    OccursAtSlice(text, ResponseMarker, m);
    assert text[m + n..] == continuation;
    if i < m {
      MarkersDoNotOverlap(text, i, m);
      OccursInSuffix(text, ResponseMarker, i + n, m);
      assert false;
    } else if i > m {
      MarkersDoNotOverlap(text, m, i);
      OccursInSuffix(text, ResponseMarker, m + n, i);
      assert false;
    }
  }

  /** Two occurrences of "Response:" never overlap: its 'R' appears only at its start. */
  lemma MarkersDoNotOverlap(text: string, i: nat, k: nat)
    requires i < k && OccursAt(text, ResponseMarker, i) && OccursAt(text, ResponseMarker, k)
    ensures i + |ResponseMarker| <= k
  {
    OccursAtSlice(text, ResponseMarker, i);
    OccursAtSlice(text, ResponseMarker, k);
    assert text[k..k + |ResponseMarker|] == ResponseMarker;
    assert text[k] == 'R';
    assert forall j :: 0 < j < |ResponseMarker| ==> ResponseMarker[j] != 'R';
    if k < i + |ResponseMarker| {
      assert false;
    }
  }
}
