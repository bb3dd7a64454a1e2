/** The shared records of the chat front end (types/index.ts) and their defaults (config/constants.ts). */
module Types {

  /** A chat message author; the SDK's other roles are kept by name. */
  datatype Role = User | Assistant | OtherRole(name: string)

  /** A chat message. The SDK-generated `id` plays no part in any rule modelled here. */
  datatype Message = Message(role: Role, content: string)

  datatype CodeQuality = CodeQuality(
    linting: bool,
    formatting: bool,
    comments: bool,
    typeChecking: bool,
    bestPractices: bool)

  /** User preferences. `outputFormat` is a string: values restored from storage are not checked
      against the three literals, and an empty one is rejected at submit time. */
  datatype Preferences = Preferences(
    outputFormat: string,
    syntaxHighlighting: bool,
    showLineNumbers: bool,
    autoComplete: bool,
    codeQuality: CodeQuality)

  /** A fenced block found in message text. */
  datatype CodeBlock = CodeBlock(language: string, code: string)

  datatype MemoryState = MemoryState(noComments: bool, forgetMemory: bool, rememberMemory: bool)

  const DefaultCodeQuality: CodeQuality :=
    CodeQuality(linting := true, formatting := true, comments := true, typeChecking := false, bestPractices := true)

  const DefaultPreferences: Preferences :=
    Preferences(
      outputFormat := "codeOnly",
      syntaxHighlighting := true,
      showLineNumbers := true,
      autoComplete := true,
      codeQuality := DefaultCodeQuality)

  const InitialMemory: MemoryState := MemoryState(noComments := false, forgetMemory := false, rememberMemory := false)

  /** Local-storage keys. */
  const PreferencesKey: string := "codeAssistPreferences"
  const CustomPromptKey: string := "customPrompt"
  const PersonalInfoKey: string := "personalInfo"
}
