# TARS chat front end: the code-fence pipeline, in Dafny

This project models the client-side text handling of the TARS coding-assistant chat. Its centre
is the fence regex ``/```(\w+)?\n([\s\S]*?)```/g``, which is modelled exactly as a leftmost-first
scanner (`Fence`). Three consumers sit on top of the scanner:

- `extractCodeBlocks`;
- the message segmenter, with its `File:` header split and line-number stripping (`MessageContent`);
- the history exporter's `formatMessageContent` (`HistoryExport`).

Several producers write fences:

- the prompt templates (`ChatUtils`);
- file attachments, paste, typing and "use code" insertion (`ChatInput`).

Each producer is proved to round-trip through the extractor.

Language tagging is modelled too:

- the extension table (`FileUtils.DetectLanguage`);
- the ordered probe chain of `detectCodeLanguage`, whose probes are parameters;
- `normalizeLang` and `isHtmlCode`;
- `isLikelyCode`.

The remaining modules are:

- the indentation formatter and the `formatCode` fallback dispatch (`FileUtils`);
- the chat session's submit, code-action, preference-load and memory rules, as a record-based state machine (`ChatSession`);
- the smaller pieces:
  - the system-prompt builder (`ChatRoute`);
  - the request mapping (`Api`);
  - the copy and download buttons (`ChatMessage`);
  - the Markdown and HTML exports (`HistoryExport`);
  - the progress bar (`Progress`);
  - the snippet search (`Snippets`);
  - the attachment icon (`FileIcon`).

Strings are `seq<char>`. Where the source compares a JavaScript `.length` with a constant, the
model counts UTF-16 units (`Strings.JsLength`). Whitespace is the exact set that JavaScript's
`trim` and `\s` use. An object-literal lookup can be read two ways. A plain-object read
(`JsObjects.Get`) can reach members inherited from `Object.prototype`, as the source does. An
own-property read (`JsObjects.GetOwn`) reaches only the literal's own entries. `normalizeLang`
and the download name are modelled both ways: `NormalizeLangAsWritten` and
`DownloadNameAsWritten` read as the source does, `NormalizeLang` and `DownloadName` read own
entries, and the rest of the model uses the latter. The parser table of `formatCode` is read as
own entries, which agrees with the source for every language its callers pass. Network replies
are the two outcomes `Replied(result)` and `Failed(message)`. Browser storage is a
`map<string, string>`. The pretty-printer, `JSON.parse`, `JSON.stringify` and the regex
probes are function parameters.

## Model

| member | source | states |
|---|---|---|
| Fence.MatchAt | utils/chat-utils.ts:6 | one anchored attempt of the regex: it succeeds only on "```", a maximal word run and a line feed, and then its body runs to the first following "```" |
| Fence.MatchAtSound | utils/chat-utils.ts:6 | every successful attempt is a fence in the reference reading (`IsFenceAt`: lazy body, word language) and ends where the scan resumes |
| Fence.MatchAtComplete | utils/chat-utils.ts:6 | the attempt succeeds exactly when the reference reading holds at that position, with that language and body |
| Fence.NextMatch | utils/chat-utils.ts:10 | the leftmost successful attempt at or after the start; no attempt succeeds before it |
| Fence.MatchesFrom | utils/chat-utils.ts:10-15 | the `/g` scan satisfies the reference reading `IsScan`: leftmost match, then the scan from its end, and nothing left when it stops |
| Fence.ScanUnique | utils/chat-utils.ts:10-15 | the scan is determined by the text: two sequences satisfying the reference reading from one start are equal |
| Fence.ScanElements | utils/chat-utils.ts:10-15 | the matches lie inside the text, in text order, without overlapping |
| Fence.ExtractCodeBlocks | utils/chat-utils.ts:5-17 | one block per match, in order, with the match's language (or "text") and its trimmed body |
| Fence.BlockShape | utils/chat-utils.ts:12-13 | every block's language is a non-empty word, and its code is trimmed and holds no "```" |
| Fence.NoBlocksIffNoFence | utils/chat-utils.ts:10-16 | the block list is empty exactly when no attempt succeeds anywhere |
| Fence.UnterminatedYieldsNothing | utils/chat-utils.ts:6-16 | when no "```" is followed by a later one, nothing is extracted, so an unterminated opener gives no block |
| Fence.MatchesAfterPrefix | utils/chat-utils.ts:6-15 | a single well-formed fence after fence-free text is the text's only match, with the code and its line feed as body |
| Fence.ExtractAfterPrefix | utils/chat-utils.ts:5-17 | such a text extracts to exactly one block: the language (or "text") and the trimmed code |
| ChatUtils.GetOutputFormatMessage | utils/chat-utils.ts:20-29 | only "codeAndExplanation" and "codeOnly" have their own sentences; every other value, "explanationOnly" included, gets the explanation-only one |
| ChatUtils.CreatePromptFromAction | utils/chat-utils.ts:32-57 | the prompt is "" exactly for an action outside the ten ids; a known action's prompt ends with the code fenced with `lang` |
| ChatUtils.PromptRoundTrip | utils/chat-utils.ts:34-53 | for a known action, a word as language and code without "```", the prompt extracts to exactly one block with that language and the trimmed code |
| ChatUtils.ValidateInput | utils/chat-utils.ts:87-103 | blank input is refused first with "Please enter a message"; then input over 10000 UTF-16 units is refused; all else is valid |
| MessageContent.NormalizeLang | components/chat/message-content.tsx:52-73 | the result is lower case, and empty only for an empty tag |
| MessageContent.NormalizeLangCases | components/chat/message-content.tsx:52-73 | the result is the table's alias of the lower-cased tag when there is one, and the lower-cased tag otherwise |
| MessageContent.NormalizeLangIdempotent | components/chat/message-content.tsx:52-73 | normalising twice is normalising once |
| MessageContent.NormalizeLangAliases | components/chat/message-content.tsx:54-69 | js/jsx give javascript, ts/tsx give typescript, sh/shell give bash, in any letter case |
| MessageContent.IsHtmlCode | components/chat/message-content.tsx:76-91 | true for "html"; false for every tag outside "", "text", "markup", "xml", "html"; otherwise an opening pattern and a closing tag are both needed |
| MessageContent.IsHtmlCodeExamples | components/chat/message-content.tsx:76-91 | a `<div>` fragment with a closing tag previews when untyped, not when tagged with another language, and not without the closing tag |
| MessageContent.SplitFileHeader | components/chat/message-content.tsx:438-445 | trimmed code starting with "File:" and holding a line feed splits into the trimmed name and the trimmed rest; otherwise the code is kept and the name is "" |
| MessageContent.SplitFileHeaderRoundTrip | components/chat/message-content.tsx:438-445 | "File:" + name + line feed + body splits back into the trimmed name and the trimmed body |
| MessageContent.SegmentsShape | components/chat/message-content.tsx:417-469 | the code segments are the matches' blocks numbered 0, 1, 2, … in order; the text segments are the non-blank gaps, trimmed, in order |
| MessageContent.CodeSegmentOfBlock | components/chat/message-content.tsx:426-445 | each code segment carries its extracted block: the language ("text" when absent) normalised, the code split at the "File:" header |
| MessageContent.SegmentsWithoutFence | components/chat/message-content.tsx:466-469 | a message without a fence is one text block with the trimmed message, or nothing when it is blank |
| MessageContent.NumberPrefixLengthSound | components/chat/message-content.tsx:337 | what `^\s*\d+(?:\s{2,}\|\t+)` removes from a line is a line-number prefix |
| MessageContent.NumberPrefixLengthLongest | components/chat/message-content.tsx:337 | every line-number prefix is covered by what the pattern removes |
| MessageContent.StripLineNumbersLines | components/chat/message-content.tsx:350-357 | the cleaned text has exactly the original's lines, each cleaned |
| MessageContent.StripNumberedLine | components/chat/message-content.tsx:354 | indentation, a number, two or more spaces (or tabs) and text give back exactly the text |
| MessageContent.StripLineKeeps | components/chat/message-content.tsx:354 | a line without a line-number prefix is kept as it is |
| MessageContent.DownloadName | components/chat/message-content.tsx:173-203 | the block's file name when it has one; else "code-snippet." and the language's own table extension, "txt" when the table has none |
| MessageContent.NormalizeLangAsWritten | components/chat/message-content.tsx:52-73 | read as a plain object, any tag that does not lower-case to an `Object.prototype` name normalises to the same string as with the own-property reading |
| MessageContent.DownloadNameAsWritten | components/chat/message-content.tsx:173-203 | read as a plain object, a string language that is not an `Object.prototype` name gives the own-property reading's download name |
| MessageContent.DownloadNameAgreesAsWritten | components/chat/message-content.tsx:201-203 | for every tag, the download name built from the as-written normaliser equals the one built from the own-property normaliser, so the inherited lookup of the extension table is never reached from a fence |
| FileUtils.FileExtension | utils/file-utils.ts:64 | from the last dot on, lower-cased; a dotless name gives at most one character |
| FileUtils.DetectLanguage | utils/file-utils.ts:63-98 | the table's language for the extension, "plaintext" otherwise; no inherited member is reachable |
| FileUtils.DotlessName | utils/file-utils.ts:64-97 | a name without a dot is "plaintext" and unsupported |
| FileUtils.TableExtensionsSupported | utils/file-utils.ts:13-46 | every extension the language table knows is in the supported list |
| FileUtils.TextFilesSupported | utils/file-utils.ts:13-46 | ".txt" is supported but not in the language table, so it falls back to "plaintext" |
| FileUtils.CsvFilesSupported | utils/file-utils.ts:13-46 | the same holds for ".csv" |
| FileUtils.DetectLanguageRust | utils/file-utils.ts:63-98 | "foo.rs" is detected as "rust" |
| FileUtils.DetectLanguageUpperCase | utils/file-utils.ts:64 | "MAIN.PY" is detected as "python" |
| FileUtils.DetectCodeLanguage | utils/file-utils.ts:103-149 | one of the fifteen listed languages; "plaintext" exactly when no probe fires; JSX markers first; the import/export gate decides typescript/javascript before any later probe |
| FileUtils.FormatIndentation | utils/file-utils.ts:154-167 | the loop over the lines yields the re-indented text `Formatted(code)` |
| FileUtils.FormattedLines | utils/file-utils.ts:154-167 | as many lines as the input, each some indentation pairs and the trimmed input line |
| FileUtils.IndentedStep | utils/file-utils.ts:158-164 | a closing line is printed one level lower (never below 0); an opening line raises the next lines' level |
| FileUtils.FormattedIdempotent | utils/file-utils.ts:154-167 | formatting formatted code changes nothing |
| FileUtils.FormatCodeCases | utils/file-utils.ts:172-215 | without a parser, or when the printer throws, the indentation formatter's result; otherwise the printed text |
| FileUtils.ParserLookupOwn | utils/file-utils.ts:180-192 | for every language the detector can return, the plain-object read of the parser table gives its own entry or nothing, so the own-property reading is exact |
| FileUtils.FormatCodeEmptyLanguage | utils/file-utils.ts:176 | the empty language formats like "plaintext" |
| FileUtils.IsLikelyCode | utils/file-utils.ts:218-247 | with a keyword, code exactly when there is a brace or semicolon, an indented line or a line feed; without one, exactly when there are both an indented line and a brace or semicolon; so a single line without brace, semicolon or indentation is never code |
| ChatInput.AcceptedIffSupported | components/chat/chat-input.tsx:81-84 | the input's own filter accepts exactly the files `isSupportedFile` accepts |
| ChatInput.MakeAttachment | components/chat/chat-input.tsx:102-115 | "File: " + name, a blank line and the content fenced with the detected language; the count is the content's UTF-16 length |
| ChatInput.ProcessFiles | components/chat/chat-input.tsx:80-134 | the current attachments are kept, in order, at the front; after them comes exactly one attachment per accepted, readable, non-empty file, built from that file and its text, in the files' order; no accepted file changes nothing |
| ChatInput.FilterFilesAppend | components/chat/chat-input.tsx:80-134 | filtering two lists of files one after the other keeps the same files, in the same order, as filtering them joined |
| ChatInput.ProcessFilesAttachesEach | components/chat/chat-input.tsx:80-134 | every accepted, readable, non-empty dropped file has its attachment among the new ones |
| ChatInput.ProcessFilesBatches | components/chat/chat-input.tsx:80-134 | dropping two batches of files one after the other gives the same attachments as dropping them together |
| ChatInput.ProcessFilesCount | components/chat/chat-input.tsx:149-152 | adding files adds their content lengths to the count |
| ChatInput.RemoveAttachment | components/chat/chat-input.tsx:543-545 | every attachment but the i-th, in order |
| ChatInput.RemoveAttachmentCount | components/chat/chat-input.tsx:149-152 | removing an attachment takes exactly its length off the count |
| ChatInput.SubmitMessage | components/chat/chat-input.tsx:220-228 | sends the non-empty parts joined by a blank line when the input is not blank or there is an attachment, then clears; otherwise nothing changes |
| ChatInput.SubmitInputOnly | components/chat/chat-input.tsx:223 | with no attachment the message is the input as typed |
| ChatInput.NonEmpty | components/chat/chat-input.tsx:223 | `filter(Boolean)` keeps exactly the non-empty strings of the list, none added |
| ChatInput.NonEmptyAppend | components/chat/chat-input.tsx:223 | the filter works piece by piece, so the kept strings stay in their order |
| ChatInput.SubmitWithAttachments | components/chat/chat-input.tsx:220-225 | a non-empty input with attachments whose texts are non-empty sends the input, a blank line, and the texts separated by blank lines |
| ChatInput.SubmitAttachmentsOnly | components/chat/chat-input.tsx:220-225 | an empty input with attachments sends only the attachment texts, separated by blank lines |
| ChatInput.MakeAttachmentNonEmpty | components/chat/chat-input.tsx:105-115 | an attachment's text is never empty, so the filter never drops one |
| ChatInput.AttachmentRoundTrip | components/chat/chat-input.tsx:106 | an attachment extracts to exactly one block with the detected language and the trimmed content |
| ChatInput.CodeBlockText | components/chat/chat-input.tsx:182 | the three-line join is the fence the extractor reads |
| ChatInput.InsertAt | components/chat/chat-input.tsx:321-324 | the block sits at the cursor and the text on both sides of it is unchanged |
| ChatInput.PasteCode | components/chat/chat-input.tsx:300-339 | text that is not likely code is left to the browser; likely code is detected, formatted and inserted fenced at the clamped cursor |
| ChatInput.ChangeInput | components/chat/chat-input.tsx:241-286 | a long likely-code chunk typed after the input is replaced by its formatted fence; anything else is taken as typed |
| ChatInput.TypingIsPastingAtEnd | components/chat/chat-input.tsx:246-263 | typing such a chunk is pasting it with the cursor at the end |
| ChatInput.UseCode | components/chat/chat-input.tsx:178-187 | empty code changes nothing; otherwise the fenced code alone, or after the input and a blank line |
| ChatInput.UseCodeRoundTrip | components/chat/chat-input.tsx:181-186 | using fence-free code in a fence-free input adds exactly one block with the detected language and the trimmed code |
| Api.PrepareApiRequest | utils/api.ts:3-30 | message and language copied; the preference fields copied verbatim; a missing or empty prompt or personal info gives "" |
| Api.MissingEqualsEmpty | utils/api.ts:18-19 | a missing text and an empty one build the same request |
| ChatRoute.SystemPrompt | app/api/chat/route.ts:7-27 | the prompt starts with the base sentence and ends with the one format clause |
| ChatRoute.FormatClause | app/api/chat/route.ts:21-27 | "codeOnly" and "explanationOnly" get their own clauses; anything else, missing preferences included, gets "both" |
| ChatRoute.SystemPromptOrder | app/api/chat/route.ts:9-19 | the custom prompt, the personal information and the language appear in that order, each right after its introduction |
| ChatRoute.SystemPromptLength | app/api/chat/route.ts:9-19 | the prompt grows by exactly the clause of each truthy field |
| ChatRoute.ClausesStartWithSpace | app/api/chat/route.ts:10-26 | every appended clause starts with a space |
| ChatSession.IsLoading | context/chat-context.tsx:48 | loading is the SDK's flag or the processing flag |
| ChatSession.StartSubmit | context/chat-context.tsx:126-149 | the input check, then a language, then an output format; a refusal is a toast only; acceptance appends the user message, sets processing and builds the request |
| ChatSession.FinishSubmit | context/chat-context.tsx:163-174 | a reply is appended as the assistant's; a failure keeps the messages and records its message, or "An unknown error occurred" when that is empty; processing ends cleared |
| ChatSession.SubmitRefusedKeepsState | context/chat-context.tsx:127-139 | a refused submit changes nothing |
| ChatSession.SubmitAccepted | context/chat-context.tsx:141-174 | the user message is appended first; a reply follows it; a failure sets the error without a retry |
| ChatSession.StartCodeAction | context/chat-context.tsx:177-229 | blank code, code over 10000 UTF-16 units and an unknown action are refused before any change; otherwise the label is appended, the full prompt is sent and only "no-comments" toggles the flag |
| ChatSession.KnownActionsLabelled | context/chat-context.tsx:203-217 | every action with a prompt has a label of its own, so the "Performing" fallback is unreachable |
| ChatSession.FinishCodeAction | context/chat-context.tsx:243-255 | a reply is appended; a failure leaves the error field alone; processing ends cleared |
| ChatSession.NoCommentsTogglesBack | context/chat-context.tsx:194-200 | toggling comments twice restores the flag; other actions leave memory alone |
| ChatSession.MergePreferences | context/chat-context.tsx:66-73 | the defaults overridden by every set field, `codeQuality` merged field by field |
| ChatSession.MergeFull | context/chat-context.tsx:66-73 | a full record merges to itself; an empty one to the defaults |
| ChatSession.LoadStored | context/chat-context.tsx:61-87 | the corrected load: non-empty stored preferences are merged over the defaults, and a parse failure or a parsed `null` gives the defaults; non-empty stored texts are loaded; nothing else changes |
| ChatSession.LoadStoredAsWritten | context/chat-context.tsx:61-87 | stored text that parses to `null` crashes the provider, and nothing else does; otherwise the load is the corrected one |
| ChatSession.StoredNullCrashes | context/chat-context.tsx:66-73 | the stored text "null" crashes the provider as written, where the corrected load gives the defaults |
| ChatSession.MemoryEffect | context/chat-context.tsx:94-124 | forgetting empties the messages; remembering stores the preferences always and the two texts only when non-empty; both flags are reset |
| ChatSession.RememberThenLoad | context/chat-context.tsx:61-118 | remembering then loading, as written, does not crash and gives back what was remembered |
| ChatMessage.CopyText | components/chat/chat-message.tsx:33-72 | nothing for empty content; with blocks, their stripped codes joined by a blank line, else the content; trimmed either way |
| ChatMessage.CopyOneFence | components/chat/chat-message.tsx:39-62 | a message with one fence copies that fence's stripped, trimmed code only |
| ChatMessage.CopyProse | components/chat/chat-message.tsx:56-62 | a message without a fence is copied whole, trimmed |
| ChatMessage.HasCodeBlocks | components/chat/chat-message.tsx:145 | the download button shows exactly when some fence attempt succeeds |
| ChatMessage.ValidExtensionAsWritten | components/chat/chat-message.tsx:89 | the extension is kept when it ends case-insensitively in a dot and an accepted extension; "txt" otherwise |
| ChatMessage.DownloadCodeBlocksAsWritten | components/chat/chat-message.tsx:74-98 | nothing without blocks; the unstripped codes joined by a blank line under "code-snippet." + the checked extension |
| ChatMessage.DownloadNamesAsWritten | components/chat/chat-message.tsx:89-90 | "javascript" and "py" download as "code-snippet.txt"; ".js" gives "code-snippet..js" |
| ChatMessage.AcceptedExtensionDoubleDot | components/chat/chat-message.tsx:89-90 | every accepted extension that begins with a dot, as the extension pattern asks, gives a name with two dots in a row |
| ChatMessage.DownloadCodeBlocks | components/chat/chat-message.tsx:74-98 | the corrected download: the same body under "code-snippet." + an accepted extension given with or without its dot |
| ChatMessage.DownloadNameSingleDot | components/chat/chat-message.tsx:90 | the corrected name is the stem and one accepted extension, with no further dot |
| ChatMessage.DownloadOneFence | components/chat/chat-message.tsx:77-80 | a message with one fence downloads that fence's trimmed code |
| HistoryExport.ReplaceCharIsSplitJoin | components/chat/chat-history-download.tsx:129 | replacing a character is splitting at it and joining with the replacement |
| HistoryExport.EscapeAngles | components/chat/chat-history-download.tsx:125 | no angle bracket is left; code without one is unchanged |
| HistoryExport.ReplaceFencesIsRebuild | components/chat/chat-history-download.tsx:124-126 | the exporter replaces exactly the extractor's matches, in order, keeping the text between them |
| HistoryExport.FormatMessageContent | components/chat/chat-history-download.tsx:122-132 | the result holds no line feed |
| HistoryExport.FormatProse | components/chat/chat-history-download.tsx:124-129 | text without a fence is not escaped; only its line feeds change |
| HistoryExport.FormatOneFence | components/chat/chat-history-download.tsx:124-129 | one fence becomes its escaped, untrimmed code in `<pre><code>`, the language dropped |
| HistoryExport.FormatChatHistoryAsMarkdown | components/chat/chat-history-download.tsx:21-39 | the placeholder for no messages; else the header and the sections joined by the separator |
| HistoryExport.MarkdownShape | components/chat/chat-history-download.tsx:28-35 | n sections and n − 1 separators, the last message's section at the end |
| HistoryExport.RoleHeading | components/chat/chat-history-download.tsx:29 | "## You" exactly for the user |
| HistoryExport.FormatChatHistoryAsHtml | components/chat/chat-history-download.tsx:41-120 | the placeholder for no messages; else the head, one block per message and the tail |
| HistoryExport.AppendAll | components/chat/chat-history-download.tsx:105-114 | the loop appends the parts in order |
| HistoryExport.MessageDivShape | components/chat/chat-history-download.tsx:106-112 | each block opens with its role class; its text holds no line feed |
| HistoryExport.RoleClass | components/chat/chat-history-download.tsx:106 | "user" exactly for the user, "assistant" for everyone else |
| HistoryExport.DownloadChatHistory | components/chat/chat-history-download.tsx:134-158 | nothing for an empty history; else the chosen document, type and "tars-chat-history-" + day name |
| HistoryExport.HistoryFileNames | components/chat/chat-history-download.tsx:158 | the two formats' names share the day and differ in extension |
| Progress.Percentage | components/chat/chat-progress-bar.tsx:19 | ten points per message, capped at 100 from ten messages on |
| Progress.PercentageMonotone | components/chat/chat-progress-bar.tsx:19 | more messages never show less |
| Progress.ColourByCount | components/chat/chat-progress-bar.tsx:22-26 | green for up to four messages, amber for five to seven, red from eight |
| Progress.ColourMonotone | components/chat/chat-progress-bar.tsx:22-26 | the colour never goes back as messages are added |
| Progress.ShowWarning | components/chat/chat-progress-bar.tsx:29-35 | the warning shows exactly above ten messages |
| Progress.WarningOnFullBar | components/chat/chat-progress-bar.tsx:19-35 | a warning only on a full red bar; ten messages fill the bar without a warning |
| Snippets.FilterSnippets | components/saved-snippets.tsx:52-57 | a snippet is shown exactly when the lower-cased query is in its lower-cased title, language or some tag |
| Snippets.FilterAppend | components/saved-snippets.tsx:52 | filtering works piece by piece, so it keeps the order |
| Snippets.EmptyQueryKeepsAll | components/saved-snippets.tsx:52-57 | the empty query shows every snippet |
| Snippets.FilterSnippetsIdempotent | components/saved-snippets.tsx:52-57 | searching a result again changes nothing |
| Snippets.QueryCaseInsensitive | components/saved-snippets.tsx:54-56 | the query's letter case does not matter |
| Snippets.DeleteSnippet | components/saved-snippets.tsx:64-66 | every snippet with the id is removed, the rest kept |
| Snippets.DeleteUnknown | components/saved-snippets.tsx:64-66 | an unknown id leaves the list as it is |
| Snippets.DeleteOne | components/saved-snippets.tsx:64-66 | with unique ids exactly that snippet goes, the others keep their order |
| FileIcon.IconFor | components/chat/file-attachment.tsx:18-30 | code, data and text extensions get their icons; all else the generic one |
| FileIcon.ListsDisjoint | components/chat/file-attachment.tsx:21-27 | the three lists share no extension |
| FileIcon.IconExtensionAfterLastDot | components/chat/file-attachment.tsx:19 | the extension is the lower-cased text after the last dot, or the whole name |
| FileIcon.DotlessListedName | components/chat/file-attachment.tsx:19-27 | a dotless name "md" gets the text icon |
| FileIcon.UpperCaseListedName | components/chat/file-attachment.tsx:19-27 | "JSON" gets the data icon: the name is lower-cased first |
| FileIcon.AgreesWithDetector | components/chat/file-attachment.tsx:19 | for a dotted name, the icon's extension is the detector's extension without its dot |

## Left out

- Rendering, animation, toasts, focus handling and every component that only lays out other components. They hold no logic beyond what is modelled.
- ChatSession.StartSubmit, ChatSession.FinishSubmit, ChatSession.SubmitAccepted, ChatSession.StartCodeAction, ChatSession.FinishCodeAction: `append` is the chat SDK's `useChat` helper, modelled as a plain append to the message list. In the source each call also posts the whole list, with the language, preferences, custom prompt and personal information as body, to `app/api/chat/route.ts` (`ChatRoute`), and then adds the streamed reply to the list. The exact message lists these members state cover only the provider's own appends. The SDK's request and streamed reply are not modelled, and the SDK's loading flag is the `aiLoading` parameter of `ChatSession.IsLoading`.
- The network calls in `handleSubmit` and `handleCodeAction` and the model call in `app/api/chat/route.ts`. A reply is the outcome `Replied(result)` or `Failed(message)`. The time between request and reply is not modelled.
- The regex probes of `detectCodeLanguage`, the keyword list of `isLikelyCode`, `JSON.parse`, `JSON.stringify` and the pretty-printer. They are parameters, because they are foreign code or opaque patterns.
- Clipboard, `FileReader`, `Blob`/object-URL downloads, the HTML preview frame and speech input.
- The `try`/`catch` around storage access in the memory effect and the load effect. Reading and writing a map cannot fail.
- `clientInfo` capture, `formatDate` and `new Date()`. The environment, the date text and the ISO timestamp are parameters.
- `formatFileSize`, `getLanguageFriendlyName`, `processDroppedFile`, `createCodeBlockFromFile`, `formatPastedCode`, `debounce`, `loadPreferences` and `savePreferences`. None of them is on the modelled paths.
- `MAX_FILE_SIZE`: no modelled path checks it.
- The paste and typing handlers' `catch` branches. Model formatting never throws, because a printer failure is already handled inside `formatCode`.
- The "getting long" toast of the typing handler.
- Spreading of stored fields that `Preferences` does not declare. The stored record has exactly the declared fields, each possibly missing.
- Case mapping covers ASCII letters only. JavaScript's full Unicode `toLowerCase` is wider. This is exact for every table, list and extension in the model, and approximate for the snippet search on non-ASCII text.
- The copy handler's selection logic, which decides whether the selection is inside a code block. Only the cleaning it applies is modelled.
- MessageContent.SegmentsShape: the segments use the own-property `normalizeLang`, so a fence tagged "constructor" or "__proto__" gets that tag as its language. As written, the source's segment carries an inherited function or object instead (Findings, first row).
- MessageContent.CodeSegmentOfBlock: the same own-property reading as `MessageContent.SegmentsShape`, for the same two tags.
- ChatInput.PasteCode: the cursor and the `slice` positions are counted in characters, not UTF-16 units, so text above U+FFFF before the cursor moves the insertion point. `ChatInput.InsertAt` uses the same unit.
- ChatInput.ChangeInput: the length comparison and the cut are counted in characters, not UTF-16 units, so text above U+FFFF is measured differently.
- FileUtils.FormatCode: the parser table is read as own entries; the plain-object read agrees for every language the detector returns (`FileUtils.ParserLookupOwn`), and the callers in the paste and typing handlers pass such a language. The calls inside `utils/file-utils.ts` that pass other languages are not modelled. Its three outcomes are stated in the lemma `FileUtils.FormatCodeCases` rather than in its own contract, to keep its callers' proofs small.
- The percentage is computed on integers. For a whole message count, `Math.round(count / 10 * 100)` is exactly `10 * count`.

## Findings

| source | as written | input that shows it | evidently intended | confidence | as-written member | corrected member |
|---|---|---|---|---|---|---|
| components/chat/message-content.tsx:52-73 | `normalizeLang` looks the lower-cased tag up in an object literal, so an inherited member is returned | a fence tagged "constructor" returns the `Object` function instead of a string | own entries only, any other tag passed through lower-cased | not executed | MessageContent.NormalizeLangAsWrittenLeaks | MessageContent.NormalizeLangConstructor |
| context/chat-context.tsx:66-73 | the merge reads `parsedPrefs.codeQuality` inside the updater given to `setPreferences`, which React runs outside the effect's `try` | stored preferences "null": `JSON.parse` gives `null`, and reading `codeQuality` from it throws while the provider renders, with no catch or error boundary above it | a parsed `null` counts as no stored record, giving the defaults as the parse-failure branch does | not executed | ChatSession.StoredNullCrashes | ChatSession.LoadStored |
| components/chat/chat-message.tsx:89-90 | the check demands a leading dot, but the name adds its own dot, and the button passes the undotted language | language "javascript" gives "code-snippet.txt"; extension ".js" gives "code-snippet..js" | an accepted extension, with or without its dot, gives "code-snippet." and that extension | not executed | ChatMessage.DownloadNamesAsWritten | ChatMessage.DownloadNamesCorrected |
