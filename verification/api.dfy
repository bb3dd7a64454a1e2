/** utils/api.ts: the body the client posts to the backend with every chat request. */
module Api {
  import opened Wrappers
  import opened Types

  /** What the browser reports about itself: time zone, locale, user agent and window size. It is
      read from the environment, so here it is a parameter. */
  datatype ClientInfo = ClientInfo(timezone: string, locale: string, userAgent: string, width: int, height: int)

  datatype ApiRequest = ApiRequest(
    message: string,
    language: string,
    outputFormat: string,
    codeQuality: CodeQuality,
    syntaxHighlighting: bool,
    showLineNumbers: bool,
    autoComplete: bool,
    customPrompt: string,
    personalInfo: string,
    clientInfo: ClientInfo)

  /** `x || ""` for an optional string argument. */
  function OrEmpty(x: Option<string>): string {
    match x
    case None => ""
    case Some(v) => v
  }

  /** `prepareApiRequest`: message and language as given, the preference fields copied, the two
      optional texts defaulted to "", and the client information from the environment. */
  function PrepareApiRequest(
    message: string, language: string, preferences: Preferences,
    customPrompt: Option<string>, personalInfo: Option<string>, env: ClientInfo
  ): (r: ApiRequest)
    ensures r.message == message && r.language == language
    ensures PreferencesOf(r) == preferences
    ensures r.customPrompt == "" <==> customPrompt == None || customPrompt == Some("")
    ensures customPrompt.Some? ==> r.customPrompt == customPrompt.value
    ensures r.personalInfo == "" <==> personalInfo == None || personalInfo == Some("")
    ensures personalInfo.Some? ==> r.personalInfo == personalInfo.value
    ensures r.clientInfo == env
  {
    ApiRequest(
      message := message,
      language := language,
      outputFormat := preferences.outputFormat,
      codeQuality := preferences.codeQuality,
      syntaxHighlighting := preferences.syntaxHighlighting,
      showLineNumbers := preferences.showLineNumbers,
      autoComplete := preferences.autoComplete,
      customPrompt := OrEmpty(customPrompt),
      personalInfo := OrEmpty(personalInfo),
      clientInfo := env)
  }

  /** The preferences a request carries, read back from its fields. */
  function PreferencesOf(r: ApiRequest): Preferences {
    Preferences(
      outputFormat := r.outputFormat,
      syntaxHighlighting := r.syntaxHighlighting,
      showLineNumbers := r.showLineNumbers,
      autoComplete := r.autoComplete,
      codeQuality := r.codeQuality)
  }

  /** A missing optional text and an empty one build the same request. */
  lemma MissingEqualsEmpty(message: string, language: string, preferences: Preferences, env: ClientInfo)
    ensures PrepareApiRequest(message, language, preferences, None, None, env)
         == PrepareApiRequest(message, language, preferences, Some(""), Some(""), env)
  {
  }
}
