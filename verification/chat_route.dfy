/** app/api/chat/route.ts, lines 7-27: the system prompt the chat route builds from the request
    body before it calls the model. */
module ChatRoute {
  import opened Wrappers
  import opened Strings

  const BaseSentence: string :=
    "You are an expert " + "coding assistant " + "specialized in " + "helping with " + "programming tasks."
  const PersonalIntro: string := " Here's some " + "context about " + "the user: "
  const LanguageIntro: string := " Focus on " + "providing help with "
  const LanguageOutro: string := " programming."
  const CodeOnlyClause: string := " Provide code only " + "without " + "explanations."
  const ExplanationOnlyClause: string := " Provide " + "explanations only " + "without code " + "examples."
  const BothClause: string := " Provide both " + "code examples and " + "explanations."

  /** The custom-prompt clause: the prompt after one space, or nothing when it is empty. */
  function CustomClause(customPrompt: string): (r: string)
    ensures r == "" <==> customPrompt == ""
    ensures r != "" ==> r[0] == ' ' && r[1..] == customPrompt
  {
    if customPrompt == "" then "" else " " + customPrompt
  }

  /** The personal-information clause, or nothing when the information is empty. */
  function PersonalClause(personalInfo: string): (r: string)
    ensures r == "" <==> personalInfo == ""
    ensures r != "" ==> StartsWith(r, PersonalIntro) && r[|PersonalIntro|..] == personalInfo
  {
    if personalInfo == "" then "" else PersonalIntro + personalInfo
  }

  /** The language clause, or nothing when no language is given. */
  function LanguageClause(language: string): (r: string)
    ensures r == "" <==> language == ""
    ensures r != "" ==> r[0] == ' ' && Contains(r, language)
  {
    if language == "" then ""
    else
      var r := LanguageIntro + language + LanguageOutro;
      assert InfixAt(r, language, |LanguageIntro|);
      r
  }

  /** The output-format clause: `preferences?.outputFormat` is None when the body has no
      preferences. Only "codeOnly" and "explanationOnly" have clauses of their own. */
  function FormatClause(outputFormat: Option<string>): (r: string)
    ensures r == CodeOnlyClause <==> outputFormat == Some("codeOnly")
    ensures r == ExplanationOnlyClause <==> outputFormat == Some("explanationOnly")
    ensures r == BothClause <==> outputFormat != Some("codeOnly") && outputFormat != Some("explanationOnly")
  {
    if outputFormat == Some("codeOnly") then CodeOnlyClause
    else if outputFormat == Some("explanationOnly") then ExplanationOnlyClause
    else BothClause
  }

  /** The system prompt as the route builds it: the base sentence, then the clause of each
      truthy field in turn, then one format clause. A missing string field of the body is "". */
  function SystemPrompt(customPrompt: string, personalInfo: string, language: string, outputFormat: Option<string>): (r: string)
    ensures StartsWith(r, BaseSentence)
    ensures EndsWith(r, FormatClause(outputFormat))
  {
    var s1 := BaseSentence + CustomClause(customPrompt);
    var s2 := s1 + PersonalClause(personalInfo);
    var s3 := s2 + LanguageClause(language);
    var f := FormatClause(outputFormat);
    KeepsPrefix(BaseSentence, CustomClause(customPrompt));
    KeepsPrefixOf(s1, PersonalClause(personalInfo), BaseSentence);
    KeepsPrefixOf(s2, LanguageClause(language), BaseSentence);
    KeepsPrefixOf(s3, f, BaseSentence);
    assert (s3 + f)[|s3 + f| - |f|..] == f;
    s3 + f
  }

  /** The truthy fields appear in the prompt in the route's order, each right after its
      introduction: the custom prompt after the base sentence and a space, the personal
      information after its introduction, the language after "Focus on providing help with". */
  lemma SystemPromptOrder(customPrompt: string, personalInfo: string, language: string, outputFormat: Option<string>)
    ensures var r := SystemPrompt(customPrompt, personalInfo, language, outputFormat);
      var c := |BaseSentence| + |CustomClause(customPrompt)|;
      var p := c + |PersonalClause(personalInfo)|;
      && (customPrompt != "" ==> InfixAt(r, customPrompt, |BaseSentence| + 1))
      && (personalInfo != "" ==> InfixAt(r, personalInfo, c + |PersonalIntro|))
      && (language != "" ==> InfixAt(r, language, p + |LanguageIntro|))
  {
    SystemPromptParts(customPrompt, personalInfo, language, outputFormat);
    ClauseContents(customPrompt, personalInfo, language);
    FieldPositions(
      BaseSentence, CustomClause(customPrompt), PersonalClause(personalInfo), LanguageClause(language),
      FormatClause(outputFormat), customPrompt, personalInfo, language);
  }

  /** Each truthy field sits inside its clause, right after the clause's introduction. */
  lemma ClauseContents(customPrompt: string, personalInfo: string, language: string)
    ensures customPrompt != "" ==> InfixAt(CustomClause(customPrompt), customPrompt, 1)
    ensures personalInfo != "" ==> InfixAt(PersonalClause(personalInfo), personalInfo, |PersonalIntro|)
    ensures language != "" ==> InfixAt(LanguageClause(language), language, |LanguageIntro|)
  {
    if language != "" {
      LanguageClauseAt(language);
    }
  }

  /** Where the fields of a prompt assembled from five pieces end up. */
  lemma FieldPositions(b: string, cc: string, pc: string, lc: string, f: string, cp: string, pi: string, lang: string)
    requires cp != "" ==> InfixAt(cc, cp, 1)
    requires pi != "" ==> InfixAt(pc, pi, |PersonalIntro|)
    requires lang != "" ==> InfixAt(lc, lang, |LanguageIntro|)
    ensures var r := b + cc + pc + lc + f;
      && (cp != "" ==> InfixAt(r, cp, |b| + 1))
      && (pi != "" ==> InfixAt(r, pi, |b| + |cc| + |PersonalIntro|))
      && (lang != "" ==> InfixAt(r, lang, |b| + |cc| + |pc| + |LanguageIntro|))
  {
    var r := b + cc + pc + lc + f;
    ClausePositions(b, cc, pc, lc, f);
    if cp != "" {
      InfixCompose(r, cc, |b|, cp, 1);
    }
    if pi != "" {
      InfixCompose(r, pc, |b| + |cc|, pi, |PersonalIntro|);
    }
    if lang != "" {
      InfixCompose(r, lc, |b| + |cc| + |pc|, lang, |LanguageIntro|);
    }
  }

  /** The prompt is the base sentence and the four clauses, in order. */
  lemma SystemPromptParts(customPrompt: string, personalInfo: string, language: string, outputFormat: Option<string>)
    ensures SystemPrompt(customPrompt, personalInfo, language, outputFormat)
         == BaseSentence + CustomClause(customPrompt) + PersonalClause(personalInfo) + LanguageClause(language) + FormatClause(outputFormat)
  {
  }

  /** The language follows its introduction inside its clause. */
  lemma LanguageClauseAt(language: string)
    requires language != ""
    ensures InfixAt(LanguageClause(language), language, |LanguageIntro|)
  {
    var lc := LanguageClause(language);
    assert lc == LanguageIntro + language + LanguageOutro;
    assert lc[|LanguageIntro|..|LanguageIntro| + |language|] == language;
  }

  /** Where each of the middle pieces of a five-piece text starts. */
  lemma ClausePositions(b: string, cc: string, pc: string, lc: string, f: string)
    ensures var r := b + cc + pc + lc + f;
      && InfixAt(r, cc, |b|)
      && InfixAt(r, pc, |b| + |cc|)
      && InfixAt(r, lc, |b| + |cc| + |pc|)
  {
    var r := b + cc + pc + lc + f;
    assert r[|b|..|b| + |cc|] == cc;
    assert r[|b| + |cc|..|b| + |cc| + |pc|] == pc;
    assert r[|b| + |cc| + |pc|..|b| + |cc| + |pc| + |lc|] == lc;
  }

  /** An occurrence inside an occurrence. */
  lemma InfixCompose(s: string, t: string, k: int, x: string, j: int)
    requires InfixAt(s, t, k) && InfixAt(t, x, j)
    ensures InfixAt(s, x, k + j)
  {
    forall i | 0 <= i < |x| ensures s[k + j + i] == x[i] {
      assert x[i] == t[j..j + |x|][i] == t[j + i];
      assert t[j + i] == s[k..k + |t|][j + i];
    }
    assert s[k + j..k + j + |x|] == x;
  }

  /** Every clause after the base sentence starts with a single space. */
  lemma ClausesStartWithSpace(customPrompt: string, personalInfo: string, language: string, outputFormat: Option<string>)
    ensures CustomClause(customPrompt) == "" || CustomClause(customPrompt)[0] == ' '
    ensures PersonalClause(personalInfo) == "" || PersonalClause(personalInfo)[0] == ' '
    ensures LanguageClause(language) == "" || LanguageClause(language)[0] == ' '
    ensures FormatClause(outputFormat)[0] == ' '
  {
    assert PersonalIntro[0] == ' ';
  }

  /** With nothing but the format, the prompt is the base sentence and the format clause. */
  lemma SystemPromptMinimal(outputFormat: Option<string>)
    ensures SystemPrompt("", "", "", outputFormat) == BaseSentence + FormatClause(outputFormat)
  {
  }

  /** The prompt grows by exactly the clause of each truthy field. */
  lemma SystemPromptLength(customPrompt: string, personalInfo: string, language: string, outputFormat: Option<string>)
    ensures |SystemPrompt(customPrompt, personalInfo, language, outputFormat)|
         == |BaseSentence| + (if customPrompt == "" then 0 else 1 + |customPrompt|)
            + (if personalInfo == "" then 0 else |PersonalIntro| + |personalInfo|)
            + (if language == "" then 0 else |LanguageIntro| + |language| + |LanguageOutro|)
            + |FormatClause(outputFormat)|
  {
  }
}
