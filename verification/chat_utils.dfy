/** utils/chat-utils.ts: the output-format sentence, the action prompt templates and the input
    guard. `extractCodeBlocks` lives in `Fence`; the prompt round trip is proved here. */
module ChatUtils {
  import opened Wrappers
  import opened Strings
  import opened Types
  import Fence

  const CodeAndExplanationSentence: string := "Provide code and explanation only."
  const CodeOnlySentence: string := "Output must contain only code in the requested language, without explanations."
  const ExplanationOnlySentence: string := "Provide explanations only, without any code."

  /** `getOutputFormatMessage`: only "codeAndExplanation" and "codeOnly" have sentences of their
      own; every other value, "explanationOnly" included, gets the explanation-only one. */
  function GetOutputFormatMessage(format: string): (r: string)
    ensures r == CodeAndExplanationSentence <==> format == "codeAndExplanation"
    ensures r == CodeOnlySentence <==> format == "codeOnly"
    ensures r == ExplanationOnlySentence <==> format != "codeAndExplanation" && format != "codeOnly"
  {
    if format == "codeAndExplanation" then CodeAndExplanationSentence
    else if format == "codeOnly" then CodeOnlySentence
    else ExplanationOnlySentence
  }

  /** The ten action ids the templates know, in the order the `switch` lists them. */
  const KnownActions: seq<string> := [
    "explain-code", "debug-code", "optimize-code", "refactor-code", "format-code",
    "add-comments", "convert-code", "generate-tests", "complete-code", "no-comments"]

  /** Position of the first entry of `ids` equal to `id`: which `case` of a `switch` over `ids`
      is taken. */
  function CaseOf(ids: seq<string>, id: string): (r: Option<nat>)
    ensures r.Some? <==> id in ids
    ensures r.Some? ==> r.value < |ids| && ids[r.value] == id && id !in ids[..r.value]
  {
    if |ids| == 0 then None
    else if ids[0] == id then Some(0)
    else match CaseOf(ids[1..], id)
      case None => None
      case Some(i) =>
        assert ids[..i + 1] == [ids[0]] + ids[1..][..i];
        Some(i + 1)
  }

  /** The sentence the `i`-th template puts before the fence. */
  function Template(i: nat, lang: string): string
    requires i < |KnownActions|
  {
    match i
    case 0 => "Explain this " + lang + " code in detail:"
    case 1 => "Fix this " + lang + " code and identify " + "any issues and give " + "me the corrected " + "code:"
    case 2 => "Optimize this " + lang + " code for better " + "performance:"
    case 3 => "Refactor this " + lang + " code to improve " + "readability and " + "maintainability:"
    case 4 => "Format this " + lang + " code according to " + "best practices:"
    case 5 => "Add detailed " + "comments to this " + lang + " code:"
    case 6 => "Convert this " + lang + " code to " + lang + " while maintaining " + "the same " + "functionality:"
    case 7 => "Generate " + "comprehensive tests " + "for this " + lang + " code:"
    case 8 => "Complete this " + lang + " code snippet:"
    case 9 => "Remove all comments " + "from this " + lang + " code and return " + "only the clean code:"
  }

  /** The sentence a template puts before the fence, or None for an unknown action. */
  function Instruction(action: string, lang: string): (r: Option<string>)
    ensures r.Some? <==> action in KnownActions
  {
    match CaseOf(KnownActions, action)
    case None => None
    case Some(i) => Some(Template(i, lang))
  }

  /** `createPromptFromAction`: the instruction, a blank line and the code fenced with `lang`;
      "" for an action outside the ten ids. */
  function CreatePromptFromAction(action: string, code: string, lang: string): (r: string)
    ensures r == "" <==> action !in KnownActions
    ensures action in KnownActions ==> EndsWith(r, Fence.FenceOf(lang, code))
  {
    match Instruction(action, lang)
    case None => ""
    case Some(intro) =>
      var r := intro + "\n\n" + Fence.FenceOf(lang, code);
      assert r[|r| - |Fence.FenceOf(lang, code)|..] == Fence.FenceOf(lang, code);
      r
  }

  /** No template sentence holds a backtick of its own. The check is split over four lemmas so
      that each stays small. */
  lemma TemplateNoBacktick(i: nat, lang: string)
    requires i < |KnownActions| && '`' !in lang
    ensures '`' !in Template(i, lang)
  {
    if i < 3 {
      TemplateNoBacktickA(i, lang);
    }
    else if i < 6 {
      TemplateNoBacktickB(i, lang);
    }
    else if i < 8 {
      TemplateNoBacktickC(i, lang);
    }
    else {
      TemplateNoBacktickD(i, lang);
    }
  }

  lemma TemplateNoBacktickA(i: nat, lang: string)
    requires 0 <= i < 3 && '`' !in lang
    ensures '`' !in Template(i, lang)
  {
    match i
    case 0 => assert '`' !in "Explain this " && '`' !in " code in detail:";
    case 1 => assert '`' !in "Fix this " && '`' !in " code and identify " && '`' !in "any issues and give " && '`' !in "me the corrected " && '`' !in "code:";
    case 2 => assert '`' !in "Optimize this " && '`' !in " code for better " && '`' !in "performance:";
  }

  lemma TemplateNoBacktickB(i: nat, lang: string)
    requires 3 <= i < 6 && '`' !in lang
    ensures '`' !in Template(i, lang)
  {
    match i
    case 3 => assert '`' !in "Refactor this " && '`' !in " code to improve " && '`' !in "readability and " && '`' !in "maintainability:";
    case 4 => assert '`' !in "Format this " && '`' !in " code according to " && '`' !in "best practices:";
    case 5 => assert '`' !in "Add detailed " && '`' !in "comments to this " && '`' !in " code:";
  }

  lemma TemplateNoBacktickC(i: nat, lang: string)
    requires 6 <= i < 8 && '`' !in lang
    ensures '`' !in Template(i, lang)
  {
    match i
    case 6 => assert '`' !in "Convert this " && '`' !in " code to " && '`' !in " while maintaining " && '`' !in "the same " && '`' !in "functionality:";
    case 7 => assert '`' !in "Generate " && '`' !in "comprehensive tests " && '`' !in "for this " && '`' !in " code:";
  }

  lemma TemplateNoBacktickD(i: nat, lang: string)
    requires 8 <= i < 10 && '`' !in lang
    ensures '`' !in Template(i, lang)
  {
    match i
    case 8 => assert '`' !in "Complete this " && '`' !in " code snippet:";
    case 9 => assert '`' !in "Remove all comments " && '`' !in "from this " && '`' !in " code and return " && '`' !in "only the clean code:";
  }

  /** The instructions hold no backtick when the language is a word. */
  lemma InstructionNoBacktick(action: string, lang: string)
    requires Fence.IsWord(lang) && action in KnownActions
    ensures '`' !in Instruction(action, lang).value
  {
    assert '`' !in lang by {
      forall i | 0 <= i < |lang| ensures lang[i] != '`' {
        assert Fence.IsWordChar(lang[i]);
      }
    }
    TemplateNoBacktick(CaseOf(KnownActions, action).value, lang);
  }

  /** Round trip with the extractor: a prompt for a known action, a word as language and code free
      of "```" gives back exactly one block, with that language (or "text" for an empty one) and
      the trimmed code. */
  lemma PromptRoundTrip(action: string, code: string, lang: string)
    requires action in KnownActions && Fence.IsWord(lang) && Fence.NoTicks(code)
    ensures Fence.ExtractCodeBlocks(CreatePromptFromAction(action, code, lang))
      == [CodeBlock(Fence.BlockLanguage(lang), Trim(code))]
  {
    var prefix := Instruction(action, lang).value + "\n\n";
    InstructionNoBacktick(action, lang);
    Fence.NoBacktickNoTicks(prefix);
    Fence.ExtractAfterPrefix(prefix, lang, code);
    assert CreatePromptFromAction(action, code, lang) == prefix + Fence.FenceOf(lang, code);
  }

  /** The result of `validateInput`. */
  datatype Validation = Valid | Invalid(message: string)

  const EmptyInputMessage: string := "Please enter a message"
  const TooLongMessage: string := "Message is too long. Please keep it under 10,000 characters."

  /** The input limit, in UTF-16 code units (JavaScript's `length`). */
  const MaxInputLength: nat := 10000

  /** `validateInput`: blank input is refused first, then input over the limit. */
  function ValidateInput(input: string): (r: Validation)
    ensures r == Invalid(EmptyInputMessage) <==> AllSpace(input)
    ensures r == Invalid(TooLongMessage) <==> !AllSpace(input) && JsLength(input) > MaxInputLength
    ensures r == Valid <==> !AllSpace(input) && JsLength(input) <= MaxInputLength
  {
    if input == "" || Trim(input) == "" then Invalid(EmptyInputMessage)
    else if JsLength(input) > MaxInputLength then Invalid(TooLongMessage)
    else Valid
  }
}
