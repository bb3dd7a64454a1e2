/** context/chat-context.tsx: the chat session as a record and its transitions. A submit or a
    code action is split at its `await`: a start step that checks the guards, appends the visible
    user message and raises the processing flag, and a finish step that takes the network
    outcome. The browser's local storage is a map from keys to strings. */
module ChatSession {
  import opened Wrappers
  import opened Strings
  import opened Types
  import opened JsObjects
  import ChatUtils
  import Api

  /** The state the provider keeps: the SDK's message list and the provider's own fields.
      `processing` is `isProcessing`; `error` is the last submit failure. */
  datatype Session = Session(
    messages: seq<Message>,
    language: string,
    preferences: Preferences,
    memory: MemoryState,
    customPrompt: string,
    personalInfo: string,
    processing: bool,
    error: Option<string>)

  /** The provider as it mounts. */
  const Initial: Session :=
    Session([], "general", DefaultPreferences, InitialMemory, "", "", false, None)

  /** `isLoading`: the SDK's own loading flag or the provider's processing flag. */
  function IsLoading(s: Session, aiLoading: bool): (r: bool)
    ensures r <==> aiLoading || s.processing
  {
    aiLoading || s.processing
  }

  /** What the backend call came to: a reply with `data.result`, or a thrown error with its
      message ("" when the error has none). A non-OK response throws with a fixed message. */
  datatype Outcome = Replied(result: string) | Failed(message: string)

  const NoLanguageMessage: string := "Please select a programming language before submitting."
  const NoFormatMessage: string := "Please select an output format before submitting."
  const UnknownErrorMessage: string := "An unknown error occurred"

  /** How a submit starts: refused with the toast it shows, or sent with the new state and the
      request body. */
  datatype SubmitStart = SubmitRefused(toast: string) | SubmitSent(next: Session, request: Api.ApiRequest)

  /** The guards of `handleSubmit`, in order: the input check, a language, an output format. */
  function StartSubmit(s: Session, input: string, env: Api.ClientInfo): (r: SubmitStart)
    ensures r.SubmitRefused? <==>
      ChatUtils.ValidateInput(input).Invalid? || s.language == "" || s.preferences.outputFormat == ""
    ensures ChatUtils.ValidateInput(input).Invalid? ==> r == SubmitRefused(ChatUtils.ValidateInput(input).message)
    ensures ChatUtils.ValidateInput(input).Valid? && s.language == "" ==> r == SubmitRefused(NoLanguageMessage)
    ensures ChatUtils.ValidateInput(input).Valid? && s.language != "" && s.preferences.outputFormat == "" ==>
      r == SubmitRefused(NoFormatMessage)
    ensures r.SubmitSent? ==>
      && r.next == s.(messages := s.messages + [Message(User, input)], processing := true)
      && r.request == Api.PrepareApiRequest(input, s.language, s.preferences, Some(s.customPrompt), Some(s.personalInfo), env)
  {
    match ChatUtils.ValidateInput(input)
    case Invalid(message) => SubmitRefused(message)
    case Valid =>
      if s.language == "" then SubmitRefused(NoLanguageMessage)
      else if s.preferences.outputFormat == "" then SubmitRefused(NoFormatMessage)
      else
        var next := s.(messages := s.messages + [Message(User, input)], processing := true);
        SubmitSent(next, Api.PrepareApiRequest(input, s.language, s.preferences, Some(s.customPrompt), Some(s.personalInfo), env))
  }

  /** The end of `handleSubmit`: a reply is appended as the assistant's message; a failure keeps
      the messages and records the error. The processing flag is cleared either way. */
  function FinishSubmit(s: Session, outcome: Outcome): (r: Session)
    ensures !r.processing
    ensures outcome.Replied? ==> r.messages == s.messages + [Message(Assistant, outcome.result)] && r.error == s.error
    ensures outcome.Failed? ==> r.messages == s.messages && r.error.Some? && r.error.value != ""
    ensures outcome.Failed? && outcome.message != "" ==> r.error == Some(outcome.message)
    ensures r.(messages := s.messages, error := s.error, processing := s.processing) == s
  {
    match outcome
    case Replied(result) => s.(messages := s.messages + [Message(Assistant, result)], processing := false)
    case Failed(message) =>
      s.(error := Some(if message == "" then UnknownErrorMessage else message), processing := false)
  }

  /** A whole submit: the start, then, when a request was sent, its outcome. */
  function HandleSubmit(s: Session, input: string, env: Api.ClientInfo, outcome: Outcome): Session {
    match StartSubmit(s, input, env)
    case SubmitRefused(_) => s
    case SubmitSent(next, _) => FinishSubmit(next, outcome)
  }

  /** A refused submit changes nothing: no message, no flag, no error. */
  lemma SubmitRefusedKeepsState(s: Session, input: string, env: Api.ClientInfo, outcome: Outcome)
    requires ChatUtils.ValidateInput(input).Invalid? || s.language == "" || s.preferences.outputFormat == ""
    ensures HandleSubmit(s, input, env, outcome) == s
  {
  }

  /** An accepted submit appends the user's message first; a reply follows it, a failure leaves
      it alone and sets the error. No retry happens, and the processing flag ends cleared. */
  lemma SubmitAccepted(s: Session, input: string, env: Api.ClientInfo, outcome: Outcome)
    requires ChatUtils.ValidateInput(input).Valid? && s.language != "" && s.preferences.outputFormat != ""
    ensures var r := HandleSubmit(s, input, env, outcome);
      && !r.processing
      && (outcome.Replied? ==> r.messages == s.messages + [Message(User, input), Message(Assistant, outcome.result)])
      && (outcome.Failed? ==> r.messages == s.messages + [Message(User, input)] && r.error.Some?)
  {
    var next := StartSubmit(s, input, env).next;
    if outcome.Replied? {
      assert next.messages + [Message(Assistant, outcome.result)]
          == s.messages + [Message(User, input), Message(Assistant, outcome.result)];
    }
  }

  /* ----- code actions ----- */

  const NoCodeMessage: string := "Please provide code to perform this action on."
  const CodeTooLongMessage: string := "The code is too long. Please provide a shorter snippet."
  const UnsupportedActionMessage: string := "The selected action is not supported."
  const CommentsIncludedMessage: string := "Comments will now be included"
  const CommentsRemovedMessage: string := "Comments will be removed"

  /** The chat line shown in place of the prompt, per action id. */
  const ActionLabels: map<string, string> := map[
    "explain-code" := "Explaining the code",
    "debug-code" := "Debugging the code",
    "optimize-code" := "Optimizing the code",
    "refactor-code" := "Refactoring the code",
    "format-code" := "Formatting the code",
    "add-comments" := "Adding comments " + "to the code",
    "convert-code" := "Converting the code",
    "generate-tests" := "Generating tests " + "for the code",
    "complete-code" := "Completing the code",
    "no-comments" := "Removing comments " + "from the code"]

  /** `actionMap[action] || `Performing ${action} on the code``, read as the object literal is
      read: own entries first, then the inherited members. */
  function ActionLabel(action: string): string {
    match Get(ActionLabels, action)
    case Some(v) =>
      if Truthy(v) then ToJsString(v) else "Performing " + action + " on the code"
    case None => "Performing " + action + " on the code"
  }

  /** Every action the templates know has a label of its own, so the "Performing" fallback is
      never shown for an action that gets past the prompt check. */
  lemma KnownActionsLabelled(action: string)
    requires action in ChatUtils.KnownActions
    ensures action in ActionLabels && ActionLabel(action) == ActionLabels[action]
  {
    assert ChatUtils.KnownActions[..] == [
      "explain-code", "debug-code", "optimize-code", "refactor-code", "format-code",
      "add-comments", "convert-code", "generate-tests", "complete-code", "no-comments"];
  }

  /** The toast shown after the guards, when there is one: only "no-comments" shows one, and its
      text follows the flag as it was before the toggle. */
  function ToggleNotice(s: Session, action: string): (r: Option<string>)
    ensures r.Some? <==> action == "no-comments"
    ensures r.Some? ==> (r.value == CommentsIncludedMessage <==> s.memory.noComments)
  {
    if action != "no-comments" then None
    else if s.memory.noComments then Some(CommentsIncludedMessage)
    else Some(CommentsRemovedMessage)
  }

  /** How a code action starts: refused with its toast, or sent with the new state, the request
      and the toggle notice. */
  datatype ActionStart =
    | ActionRefused(toast: string)
    | ActionSent(next: Session, request: Api.ApiRequest, notice: Option<string>)

  /** The guards of `handleCodeAction`, in order: code that is not blank, code within 10000
      UTF-16 units, an action with a prompt. `lang` defaults to the session language. The chat
      shows the action's label; the request carries the full prompt and the session language.
      Only "no-comments" flips `memoryState.noComments`. */
  function StartCodeAction(s: Session, action: string, code: string, lang: Option<string>, env: Api.ClientInfo): (r: ActionStart)
    ensures r.ActionRefused? <==>
      AllSpace(code) || JsLength(code) > ChatUtils.MaxInputLength || action !in ChatUtils.KnownActions
    ensures AllSpace(code) ==> r == ActionRefused(NoCodeMessage)
    ensures !AllSpace(code) && JsLength(code) > ChatUtils.MaxInputLength ==> r == ActionRefused(CodeTooLongMessage)
    ensures !AllSpace(code) && JsLength(code) <= ChatUtils.MaxInputLength && action !in ChatUtils.KnownActions ==>
      r == ActionRefused(UnsupportedActionMessage)
    ensures r.ActionSent? ==>
      && r.next.messages == s.messages + [Message(User, ActionLabel(action))]
      && r.next.processing
      && r.next.memory == (if action == "no-comments" then s.memory.(noComments := !s.memory.noComments) else s.memory)
      && r.next.(messages := s.messages, processing := s.processing, memory := s.memory) == s
      && r.request == Api.PrepareApiRequest(
           ChatUtils.CreatePromptFromAction(action, code, lang.GetOr(s.language)),
           s.language, s.preferences, Some(s.customPrompt), Some(s.personalInfo), env)
      && r.notice == ToggleNotice(s, action)
  {
    if Trim(code) == "" then ActionRefused(NoCodeMessage)
    else if JsLength(code) > 10000 then ActionRefused(CodeTooLongMessage)
    else
      var prompt := ChatUtils.CreatePromptFromAction(action, code, lang.GetOr(s.language));
      if prompt == "" then ActionRefused(UnsupportedActionMessage)
      else
        var memory := if action == "no-comments" then s.memory.(noComments := !s.memory.noComments) else s.memory;
        var next := s.(
          memory := memory,
          messages := s.messages + [Message(User, ActionLabel(action))],
          processing := true);
        var request := Api.PrepareApiRequest(prompt, s.language, s.preferences, Some(s.customPrompt), Some(s.personalInfo), env);
        ActionSent(next, request, ToggleNotice(s, action))
  }

  /** The end of a code action: a reply is appended; a failure only shows a toast (the error
      field is left alone). The processing flag is cleared either way. */
  function FinishCodeAction(s: Session, outcome: Outcome): (r: Session)
    ensures !r.processing
    ensures outcome.Replied? ==> r.messages == s.messages + [Message(Assistant, outcome.result)]
    ensures outcome.Failed? ==> r.messages == s.messages
    ensures r.(messages := s.messages, processing := s.processing) == s
  {
    match outcome
    case Replied(result) => s.(messages := s.messages + [Message(Assistant, result)], processing := false)
    case Failed(_) => s.(processing := false)
  }

  /** Toggling comments twice restores the flag; any other action leaves memory alone. */
  lemma NoCommentsTogglesBack(s: Session, code: string, lang: Option<string>, env: Api.ClientInfo)
    requires StartCodeAction(s, "no-comments", code, lang, env).ActionSent?
    requires StartCodeAction(StartCodeAction(s, "no-comments", code, lang, env).next, "no-comments", code, lang, env).ActionSent?
    ensures StartCodeAction(StartCodeAction(s, "no-comments", code, lang, env).next, "no-comments", code, lang, env).next.memory
         == s.memory
  {
  }

  /* ----- preferences on load ----- */

  /** The code-quality fields a stored record sets; a field it does not set is None. */
  datatype StoredQuality = StoredQuality(
    linting: Option<bool>,
    formatting: Option<bool>,
    comments: Option<bool>,
    typeChecking: Option<bool>,
    bestPractices: Option<bool>)

  /** The top-level fields a stored record sets. `codeQuality` is None when it is missing or
      falsy. */
  datatype StoredPrefs = StoredPrefs(
    outputFormat: Option<string>,
    syntaxHighlighting: Option<bool>,
    showLineNumbers: Option<bool>,
    autoComplete: Option<bool>,
    codeQuality: Option<StoredQuality>)

  /** What `JSON.parse` makes of the stored text: a record, the literal `null`, or a syntax
      error. */
  datatype Parsed = Record(fields: StoredPrefs) | Null | Unparsable

  function MergeQuality(d: CodeQuality, q: StoredQuality): (r: CodeQuality)
    ensures q.linting.Some? ==> r.linting == q.linting.value
    ensures q.linting.None? ==> r.linting == d.linting
    ensures q.formatting.Some? ==> r.formatting == q.formatting.value
    ensures q.formatting.None? ==> r.formatting == d.formatting
    ensures q.comments.Some? ==> r.comments == q.comments.value
    ensures q.comments.None? ==> r.comments == d.comments
    ensures q.typeChecking.Some? ==> r.typeChecking == q.typeChecking.value
    ensures q.typeChecking.None? ==> r.typeChecking == d.typeChecking
    ensures q.bestPractices.Some? ==> r.bestPractices == q.bestPractices.value
    ensures q.bestPractices.None? ==> r.bestPractices == d.bestPractices
  {
    CodeQuality(
      linting := q.linting.GetOr(d.linting),
      formatting := q.formatting.GetOr(d.formatting),
      comments := q.comments.GetOr(d.comments),
      typeChecking := q.typeChecking.GetOr(d.typeChecking),
      bestPractices := q.bestPractices.GetOr(d.bestPractices))
  }

  const NoQuality: StoredQuality := StoredQuality(None, None, None, None, None)

  /** `{...DEFAULT_PREFERENCES, ...parsed, codeQuality: {...defaults, ...(parsed.codeQuality || {})}}`:
      the defaults overridden by every top-level field the record sets, with `codeQuality`
      merged field by field over the default one. */
  function MergePreferences(p: StoredPrefs): (r: Preferences)
    ensures p.outputFormat.Some? ==> r.outputFormat == p.outputFormat.value
    ensures p.outputFormat.None? ==> r.outputFormat == DefaultPreferences.outputFormat
    ensures p.syntaxHighlighting.Some? ==> r.syntaxHighlighting == p.syntaxHighlighting.value
    ensures p.syntaxHighlighting.None? ==> r.syntaxHighlighting == DefaultPreferences.syntaxHighlighting
    ensures p.showLineNumbers.Some? ==> r.showLineNumbers == p.showLineNumbers.value
    ensures p.showLineNumbers.None? ==> r.showLineNumbers == DefaultPreferences.showLineNumbers
    ensures p.autoComplete.Some? ==> r.autoComplete == p.autoComplete.value
    ensures p.autoComplete.None? ==> r.autoComplete == DefaultPreferences.autoComplete
    ensures r.codeQuality == MergeQuality(DefaultCodeQuality, p.codeQuality.GetOr(NoQuality))
  {
    Preferences(
      outputFormat := p.outputFormat.GetOr(DefaultPreferences.outputFormat),
      syntaxHighlighting := p.syntaxHighlighting.GetOr(DefaultPreferences.syntaxHighlighting),
      showLineNumbers := p.showLineNumbers.GetOr(DefaultPreferences.showLineNumbers),
      autoComplete := p.autoComplete.GetOr(DefaultPreferences.autoComplete),
      codeQuality := MergeQuality(DefaultCodeQuality, p.codeQuality.GetOr(NoQuality)))
  }

  /** What the load effect comes to as written: the next state, or a crash. The merge runs in
      the updater handed to `setPreferences`, and React calls that updater outside the effect's
      `try`, so a parsed `null` makes `parsedPrefs.codeQuality` throw while the provider renders,
      where no catch and no error boundary above it can stop the error. */
  datatype LoadOutcome = Loaded(next: Session) | RenderCrash

  /** The stored preferences parse to `null`: the one input on which the two readings of the
      load effect part. */
  predicate StoredNull(storage: map<string, string>, parse: string -> Parsed) {
    PreferencesKey in storage && storage[PreferencesKey] != "" && parse(storage[PreferencesKey]).Null?
  }

  /** The load effect as written: stored text that parses to `null` crashes the provider; any
      other stored text loads as `LoadStored` does. */
  function LoadStoredAsWritten(s: Session, storage: map<string, string>, parse: string -> Parsed): (r: LoadOutcome)
    ensures r.RenderCrash? <==> StoredNull(storage, parse)
    ensures r.Loaded? && PreferencesKey in storage && storage[PreferencesKey] != "" ==>
      && !parse(storage[PreferencesKey]).Null?
      && r.next.preferences == (match parse(storage[PreferencesKey])
                                case Record(p) => MergePreferences(p)
                                case _ => DefaultPreferences)
    ensures r.Loaded? ==> r.next == LoadStored(s, storage, parse)
  {
    if StoredNull(storage, parse) then RenderCrash
    else Loaded(LoadStored(s, storage, parse))
  }

  /** The stored text "null", read back as `null`, crashes the provider as written; the
      corrected load gives the defaults and keeps the rest of the session. */
  lemma StoredNullCrashes(s: Session, parse: string -> Parsed)
    requires parse("null") == Null
    ensures LoadStoredAsWritten(s, map[PreferencesKey := "null"], parse) == RenderCrash
    ensures LoadStored(s, map[PreferencesKey := "null"], parse) == s.(preferences := DefaultPreferences)
  {
    var storage := map[PreferencesKey := "null"];
    assert StoredNull(storage, parse);
    assert CustomPromptKey !in storage && PersonalInfoKey !in storage;
  }

  /** The load effect, corrected so that a parsed `null` counts as no stored record (as
      `parsedPrefs?.codeQuality` would read it): stored preferences are merged over the defaults
      when the stored text is non-empty, and a parse failure or `null` gives the defaults; a
      non-empty stored custom prompt or personal information replaces the current one. */
  function LoadStored(s: Session, storage: map<string, string>, parse: string -> Parsed): (r: Session)
    ensures PreferencesKey !in storage || storage[PreferencesKey] == "" ==> r.preferences == s.preferences
    ensures PreferencesKey in storage && storage[PreferencesKey] != "" ==>
      r.preferences == (match parse(storage[PreferencesKey])
                        case Record(p) => MergePreferences(p)
                        case _ => DefaultPreferences)
    ensures r.customPrompt == (if CustomPromptKey in storage && storage[CustomPromptKey] != "" then storage[CustomPromptKey] else s.customPrompt)
    ensures r.personalInfo == (if PersonalInfoKey in storage && storage[PersonalInfoKey] != "" then storage[PersonalInfoKey] else s.personalInfo)
    ensures r.(preferences := s.preferences, customPrompt := s.customPrompt, personalInfo := s.personalInfo) == s
  {
    var prefs :=
      if PreferencesKey in storage && storage[PreferencesKey] != "" then
        match parse(storage[PreferencesKey])
        case Record(p) => MergePreferences(p)
        case Null => DefaultPreferences
        case Unparsable => DefaultPreferences
      else s.preferences;
    var custom := if CustomPromptKey in storage && storage[CustomPromptKey] != "" then storage[CustomPromptKey] else s.customPrompt;
    var personal := if PersonalInfoKey in storage && storage[PersonalInfoKey] != "" then storage[PersonalInfoKey] else s.personalInfo;
    s.(preferences := prefs, customPrompt := custom, personalInfo := personal)
  }

  /** The stored record that sets every field of `p`. */
  function Full(p: Preferences): StoredPrefs {
    StoredPrefs(
      Some(p.outputFormat), Some(p.syntaxHighlighting), Some(p.showLineNumbers), Some(p.autoComplete),
      Some(StoredQuality(
        Some(p.codeQuality.linting), Some(p.codeQuality.formatting), Some(p.codeQuality.comments),
        Some(p.codeQuality.typeChecking), Some(p.codeQuality.bestPractices))))
  }

  /** A record that sets every field merges to exactly the preferences it came from; an empty
      record merges to the defaults. */
  lemma MergeFull(p: Preferences)
    ensures MergePreferences(Full(p)) == p
    ensures MergePreferences(StoredPrefs(None, None, None, None, None)) == DefaultPreferences
  {
  }

  /* ----- the memory effect ----- */

  /** A storage key that remembering leaves alone. */
  predicate Untouched(s: Session, k: string) {
    && k != PreferencesKey
    && (k != CustomPromptKey || s.customPrompt == "")
    && (k != PersonalInfoKey || s.personalInfo == "")
  }

  /** The memory effect, run on every change of the memory flags: forgetting empties the message
      list; remembering stores the preferences always and the custom prompt and personal
      information only when non-empty. Each flag is reset after its work. `stringify` is
      `JSON.stringify`. */
  function MemoryEffect(s: Session, storage: map<string, string>, stringify: Preferences -> string): (r: (Session, map<string, string>))
    ensures !r.0.memory.forgetMemory && !r.0.memory.rememberMemory
    ensures r.0.memory.noComments == s.memory.noComments
    ensures r.0.messages == (if s.memory.forgetMemory then [] else s.messages)
    ensures r.0.(messages := s.messages, memory := s.memory) == s
    ensures !s.memory.rememberMemory ==> r.1 == storage
    ensures s.memory.rememberMemory ==>
      && PreferencesKey in r.1 && r.1[PreferencesKey] == stringify(s.preferences)
      && (s.customPrompt != "" ==> CustomPromptKey in r.1 && r.1[CustomPromptKey] == s.customPrompt)
      && (s.personalInfo != "" ==> PersonalInfoKey in r.1 && r.1[PersonalInfoKey] == s.personalInfo)
      && (forall k :: k in storage && Untouched(s, k) ==> k in r.1 && r.1[k] == storage[k])
      && r.1.Keys <= storage.Keys + {PreferencesKey, CustomPromptKey, PersonalInfoKey}
  {
    var s1 := if s.memory.forgetMemory then s.(messages := [], memory := s.memory.(forgetMemory := false)) else s;
    if s.memory.rememberMemory then
      var st1 := storage[PreferencesKey := stringify(s.preferences)];
      var st2 := if s.customPrompt != "" then st1[CustomPromptKey := s.customPrompt] else st1;
      var st3 := if s.personalInfo != "" then st2[PersonalInfoKey := s.personalInfo] else st2;
      (s1.(memory := s1.memory.(rememberMemory := false)), st3)
    else (s1, storage)
  }

  /** Remembering and then loading, as written, gives back what was remembered without a crash:
      the preferences when `JSON.parse` reads back every field `JSON.stringify` wrote, and the custom prompt and
      personal information when they are non-empty. */
  lemma RememberThenLoad(s: Session, storage: map<string, string>, stringify: Preferences -> string, parse: string -> Parsed, t: Session)
    requires s.memory.rememberMemory
    requires stringify(s.preferences) != "" && parse(stringify(s.preferences)) == Record(Full(s.preferences))
    ensures var stored := MemoryEffect(s, storage, stringify).1;
      var loaded := LoadStoredAsWritten(t, stored, parse);
      && loaded.Loaded?
      && loaded.next.preferences == s.preferences
      && (s.customPrompt != "" ==> loaded.next.customPrompt == s.customPrompt)
      && (s.personalInfo != "" ==> loaded.next.personalInfo == s.personalInfo)
  {
    MergeFull(s.preferences);
  }
}
