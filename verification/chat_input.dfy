/** components/chat/chat-input.tsx: the attachment pipeline (extension filter, fenced attachment
    text, character count, removal), message submission, and the two ways code is inserted into
    the input (paste of likely code, "use code" events). */
module ChatInput {
  import opened Wrappers
  import opened Strings
  import opened Types
  import Fence
  import FileUtils

  /** A file handed to the input by drop or picker. `text` is what reading it gives: None when
      the reader fails. */
  datatype DroppedFile = DroppedFile(name: string, size: nat, text: Option<string>)

  /** An attachment waiting to be sent with the next message. */
  datatype Attachment = Attachment(
    fileName: string, fileSize: nat, content: string, contentLength: nat, language: string)

  /** `name.substring(name.lastIndexOf(".")).toLowerCase()`: from the last dot on, lower-cased; a
      name without a dot is taken whole (`substring(-1)` starts at 0). */
  function InputExtension(name: string): (ext: string)
    ensures '.' !in name ==> ext == ToLower(name)
  {
    ToLower(JsSubstring(name, LastIndexOf(name, '.')))
  }

  /** The input's own extension filter. */
  predicate IsAccepted(name: string) {
    InputExtension(name) in FileUtils.SupportedFileTypes
  }

  /** The filter agrees with `isSupportedFile` although the two extract the extension
      differently: for a dotless name one takes the whole name and the other its last character,
      and neither is a listed extension. */
  lemma AcceptedIffSupported(name: string)
    ensures IsAccepted(name) <==> FileUtils.IsSupportedFile(name)
  {
    if '.' in name {
      assert InputExtension(name) == FileUtils.FileExtension(name);
    }
    else {
      var e := InputExtension(name);
      assert e == [] || e[0] != '.' by {
        if e != [] {
          assert e[0] == ToLowerChar(name[0]) && name[0] in name;
        }
      }
      Undotted(e);
      FileUtils.DotlessName(name);
    }
  }

  /** A text not starting with a dot is not a listed extension. */
  lemma Undotted(e: string)
    requires e == [] || e[0] != '.'
    ensures e !in FileUtils.SupportedFileTypes
  {
    if e in FileUtils.SupportedFileTypes {
      FileUtils.ExtensionsAreLong(e);
    }
  }

  /** The text an attachment contributes: a "File:" line, a blank line and the fenced content. */
  function AttachmentText(name: string, lang: string, text: string): string {
    "File: " + name + "\n\n" + Fence.FenceOf(lang, text)
  }

  /** The attachment built for a file that was read. The count is in UTF-16 units. */
  function MakeAttachment(f: DroppedFile, text: string): (a: Attachment)
    ensures a.fileName == f.name && a.fileSize == f.size
    ensures a.language == FileUtils.DetectLanguage(f.name)
    ensures a.contentLength == JsLength(text)
    ensures a.content == AttachmentText(f.name, a.language, text)
  {
    var lang := FileUtils.DetectLanguage(f.name);
    Attachment(f.name, f.size, AttachmentText(f.name, lang, text), JsLength(text), lang)
  }

  /** A file is attached when it passes the filter and reads to a non-empty text (the reader
      refuses an empty result). */
  predicate Attaches(f: DroppedFile) {
    IsAccepted(f.name) && f.text.Some? && f.text.value != ""
  }

  /** The files `keep` holds of, in order. */
  function FilterFiles(files: seq<DroppedFile>, keep: DroppedFile -> bool): (fs: seq<DroppedFile>)
    ensures |fs| <= |files|
    ensures forall f :: f in fs <==> f in files && keep(f)
    ensures forall i :: 0 <= i < |fs| ==> keep(fs[i])
    ensures (forall i :: 0 <= i < |files| ==> !keep(files[i])) ==> fs == []
  {
    if files == [] then []
    else
      var rest := FilterFiles(files[1..], keep);
      assert forall f :: f in files <==> f == files[0] || f in files[1..];
      if keep(files[0]) then [files[0]] + rest else rest
  }

  /** Filtering works piece by piece, so the kept files stay in their order. */
  lemma {:induction false} FilterFilesAppend(a: seq<DroppedFile>, b: seq<DroppedFile>, keep: DroppedFile -> bool)
    ensures FilterFiles(a + b, keep) == FilterFiles(a, keep) + FilterFiles(b, keep)
    decreases |a|
  {
    if a == [] {
      assert a + b == b;
    }
    else {
      assert (a + b)[0] == a[0] && (a + b)[1..] == a[1..] + b;
      FilterFilesAppend(a[1..], b, keep);
    }
  }

  /** The files that end up attached, in order. */
  function Attaching(files: seq<DroppedFile>): (fs: seq<DroppedFile>)
    ensures |fs| <= |files|
    ensures forall f :: f in fs <==> f in files && Attaches(f)
    ensures forall i :: 0 <= i < |fs| ==> Attaches(fs[i])
    ensures (forall i :: 0 <= i < |files| ==> !Attaches(files[i])) ==> fs == []
  {
    FilterFiles(files, Attaches)
  }

  /** The attachments of files that were all read, one per file, in order. */
  function AttachmentsOf(fs: seq<DroppedFile>): (atts: seq<Attachment>)
    requires forall i :: 0 <= i < |fs| ==> fs[i].text.Some?
    ensures |atts| == |fs| && forall i :: 0 <= i < |fs| ==> atts[i] == MakeAttachment(fs[i], fs[i].text.value)
  {
    seq(|fs|, i requires 0 <= i < |fs| => MakeAttachment(fs[i], fs[i].text.value))
  }

  /** Building the attachments works piece by piece. */
  lemma AttachmentsOfAppend(x: seq<DroppedFile>, y: seq<DroppedFile>)
    requires forall i :: 0 <= i < |x| ==> x[i].text.Some?
    requires forall i :: 0 <= i < |y| ==> y[i].text.Some?
    ensures forall i :: 0 <= i < |x + y| ==> (x + y)[i].text.Some?
    ensures AttachmentsOf(x + y) == AttachmentsOf(x) + AttachmentsOf(y)
  {
    var l, r := AttachmentsOf(x + y), AttachmentsOf(x) + AttachmentsOf(y);
    forall i | 0 <= i < |l| ensures l[i] == r[i] {
      if i < |x| {
        assert (x + y)[i] == x[i];
      }
      else {
        assert (x + y)[i] == y[i - |x|];
      }
    }
  }

  /** The attachments `processFiles` builds: one per attaching file, in order; files that fail
      to read, or read empty, are skipped. */
  function NewAttachments(files: seq<DroppedFile>): (atts: seq<Attachment>)
    ensures var fs := Attaching(files);
      |atts| == |fs| && forall i :: 0 <= i < |fs| ==> atts[i] == MakeAttachment(fs[i], fs[i].text.value)
  {
    AttachmentsOf(Attaching(files))
  }

  /** `processFiles`: the current attachments are kept in front, and after them comes the
      attachment of each attaching file, in the files' order. With no accepted file the list
      stays as it is. */
  function ProcessFiles(current: seq<Attachment>, files: seq<DroppedFile>): (r: seq<Attachment>)
    ensures var fs := Attaching(files);
      && |r| == |current| + |fs| && r[..|current|] == current
      && forall i :: 0 <= i < |fs| ==> r[|current| + i] == MakeAttachment(fs[i], fs[i].text.value)
    ensures (forall i :: 0 <= i < |files| ==> !IsAccepted(files[i].name)) ==> r == current
  {
    var r := current + NewAttachments(files);
    assert r[..|current|] == current;
    assert Attaching(files) == [] ==> r == current;
    r
  }

  /** Every file that is accepted and reads to a non-empty text gets its attachment, and every
      new attachment comes from such a file. */
  lemma ProcessFilesAttachesEach(current: seq<Attachment>, files: seq<DroppedFile>, f: DroppedFile)
    requires f in files && Attaches(f)
    ensures MakeAttachment(f, f.text.value) in ProcessFiles(current, files)[|current|..]
  {
    var fs := Attaching(files);
    var i :| 0 <= i < |fs| && fs[i] == f;
    assert ProcessFiles(current, files)[|current|..][i] == MakeAttachment(f, f.text.value);
  }

  /** Dropping two batches one after the other attaches what dropping them together does. */
  lemma ProcessFilesBatches(current: seq<Attachment>, a: seq<DroppedFile>, b: seq<DroppedFile>)
    ensures ProcessFiles(ProcessFiles(current, a), b) == ProcessFiles(current, a + b)
  {
    var fa, fb := Attaching(a), Attaching(b);
    assert Attaching(a + b) == fa + fb by { FilterFilesAppend(a, b, Attaches); }
    assert NewAttachments(a + b) == NewAttachments(a) + NewAttachments(b) by {
      AttachmentsOfAppend(fa, fb);
    }
    assert current + NewAttachments(a) + NewAttachments(b) == current + (NewAttachments(a) + NewAttachments(b));
  }

  /** The sum of the attachments' `contentLength`. */
  function AttachedLength(atts: seq<Attachment>): nat {
    if atts == [] then 0 else atts[0].contentLength + AttachedLength(atts[1..])
  }

  /** `charCount`: the input's length plus every attachment's content length. */
  function CharCount(input: string, atts: seq<Attachment>): nat {
    JsLength(input) + AttachedLength(atts)
  }

  lemma {:induction false} AttachedLengthAppend(a: seq<Attachment>, b: seq<Attachment>)
    ensures AttachedLength(a + b) == AttachedLength(a) + AttachedLength(b)
    decreases |a|
  {
    if a != [] {
      assert (a + b)[1..] == a[1..] + b;
      AttachedLengthAppend(a[1..], b);
    }
    else {
      assert a + b == b;
    }
  }

  /** `removeFileAttachment(i)`: every attachment but the `i`-th, in order. */
  function RemoveAttachment(atts: seq<Attachment>, index: int): (r: seq<Attachment>)
    ensures 0 <= index < |atts| ==> r == atts[..index] + atts[index + 1..]
    ensures !(0 <= index < |atts|) ==> r == atts
  {
    if 0 <= index < |atts| then atts[..index] + atts[index + 1..] else atts
  }

  /** Removing an attachment takes exactly its length off the count. */
  lemma RemoveAttachmentCount(input: string, atts: seq<Attachment>, index: nat)
    requires index < |atts|
    ensures CharCount(input, RemoveAttachment(atts, index)) + atts[index].contentLength == CharCount(input, atts)
  {
    assert atts == atts[..index] + atts[index..];
    AttachedLengthAppend(atts[..index], atts[index..]);
    AttachedLengthAppend(atts[..index], atts[index + 1..]);
    assert atts[index..][1..] == atts[index + 1..];
  }

  /** Adding files adds their content lengths to the count. */
  lemma ProcessFilesCount(input: string, current: seq<Attachment>, files: seq<DroppedFile>)
    ensures CharCount(input, ProcessFiles(current, files)) == CharCount(input, current) + AttachedLength(NewAttachments(files))
  {
    AttachedLengthAppend(current, NewAttachments(files));
  }

  /* ----- submission ----- */

  /** What the input holds between renders. */
  datatype InputState = InputState(input: string, attachments: seq<Attachment>)

  /** The non-empty strings of a list, in order (`filter(Boolean)`). */
  function NonEmpty(parts: seq<string>): (r: seq<string>)
    ensures |r| <= |parts|
    ensures forall i :: 0 <= i < |r| ==> r[i] != ""
    ensures forall t :: t in r <==> t in parts && t != ""
  {
    if parts == [] then []
    else
      var rest := NonEmpty(parts[1..]);
      assert forall t :: t in parts <==> t == parts[0] || t in parts[1..];
      (if parts[0] != "" then [parts[0]] else []) + rest
  }

  /** Dropping empty strings works piece by piece, so the kept strings stay in their order. */
  lemma {:induction false} NonEmptyAppend(a: seq<string>, b: seq<string>)
    ensures NonEmpty(a + b) == NonEmpty(a) + NonEmpty(b)
    decreases |a|
  {
    if a == [] {
      assert a + b == b;
    }
    else {
      assert (a + b)[1..] == a[1..] + b;
      NonEmptyAppend(a[1..], b);
    }
  }

  /** A list with no empty string is kept whole. */
  lemma {:induction false} NonEmptyKeepsAll(parts: seq<string>)
    requires forall i :: 0 <= i < |parts| ==> parts[i] != ""
    ensures NonEmpty(parts) == parts
    decreases |parts|
  {
    if parts != [] {
      NonEmptyKeepsAll(parts[1..]);
    }
  }

  /** The contents of the attachments, in order. */
  function Contents(atts: seq<Attachment>): (r: seq<string>)
    ensures |r| == |atts| && forall i :: 0 <= i < |atts| ==> r[i] == atts[i].content
  {
    seq(|atts|, i requires 0 <= i < |atts| => atts[i].content)
  }

  /** The message sent: the input and the attachment texts, empty ones dropped, separated by a
      blank line. */
  function FullMessage(st: InputState): string {
    Join(NonEmpty([st.input] + Contents(st.attachments)), "\n\n")
  }

  /** The outcome of `submitMessage`: the message handed to the chat, if any, and the next state. */
  datatype Submission = Submission(sent: Option<string>, next: InputState)

  /** `submitMessage`: with non-blank input or at least one attachment, the full message is sent
      and the input and attachments are cleared; otherwise nothing is sent and nothing changes. */
  function SubmitMessage(st: InputState): (r: Submission)
    ensures r.sent.None? <==> AllSpace(st.input) && st.attachments == []
    ensures r.sent.None? ==> r.next == st
    ensures r.sent.Some? ==> r.sent.value == FullMessage(st) && r.next == InputState("", [])
  {
    if Trim(st.input) != "" || |st.attachments| > 0 then
      Submission(Some(FullMessage(st)), InputState("", []))
    else Submission(None, st)
  }

  /** With no attachment the message is the input as typed, untrimmed. */
  lemma SubmitInputOnly(input: string)
    requires !AllSpace(input)
    ensures SubmitMessage(InputState(input, [])).sent == Some(input)
  {
    assert [input] + Contents([]) == [input];
    assert NonEmpty([input]) == [input] by {
      assert input != "";
      assert NonEmpty([input][1..]) == [];
    }
  }

  /** Every attachment text starts with "File: ", so none is dropped by the filter. */
  lemma MakeAttachmentNonEmpty(f: DroppedFile, text: string)
    ensures MakeAttachment(f, text).content != ""
  {
    assert MakeAttachment(f, text).content[0] == 'F';
  }

  /** The message for a non-empty input and attachments with non-empty texts: the input as typed,
      a blank line, and the attachment texts separated by blank lines. */
  lemma SubmitWithAttachments(input: string, atts: seq<Attachment>)
    requires input != "" && atts != []
    requires forall i :: 0 <= i < |atts| ==> atts[i].content != ""
    ensures SubmitMessage(InputState(input, atts)).sent == Some(input + "\n\n" + Join(Contents(atts), "\n\n"))
  {
    var cs := Contents(atts);
    NonEmptyKeepsAll([input] + cs);
    assert ([input] + cs)[1..] == cs;
  }

  /** With an empty input the message is the attachment texts separated by blank lines. */
  lemma SubmitAttachmentsOnly(atts: seq<Attachment>)
    requires atts != []
    requires forall i :: 0 <= i < |atts| ==> atts[i].content != ""
    ensures SubmitMessage(InputState("", atts)).sent == Some(Join(Contents(atts), "\n\n"))
  {
    var cs := Contents(atts);
    NonEmptyAppend([""], cs);
    NonEmptyKeepsAll(cs);
    assert NonEmpty([""]) == [] by {
      assert [""][1..] == [];
    }
    assert [] + cs == cs;
  }

  /** With an empty input and one attachment the message is that attachment's text. */
  lemma SubmitAttachmentOnly(f: DroppedFile, text: string)
    ensures var a := MakeAttachment(f, text);
      SubmitMessage(InputState("", [a])).sent == Some(a.content)
  {
    var a := MakeAttachment(f, text);
    assert [""] + Contents([a]) == ["", a.content];
    assert NonEmpty(["", a.content]) == NonEmpty([a.content]) by {
      assert ["", a.content][1..] == [a.content];
    }
    assert a.content != "" by {
      assert a.content[0] == 'F';
    }
    assert NonEmpty([a.content]) == [a.content] by {
      assert [a.content][1..] == [];
    }
  }

  /** Round trip with the extractor: an attachment of a file whose name has no backtick and whose
      text has no "```" yields exactly one block, in the detected language, with the trimmed
      text. The "File:" line stays outside the fence. */
  lemma AttachmentRoundTrip(f: DroppedFile, text: string)
    requires '`' !in f.name && Fence.NoTicks(text)
    ensures var a := MakeAttachment(f, text);
      Fence.ExtractCodeBlocks(a.content) == [CodeBlock(a.language, Trim(text))]
  {
    var lang := FileUtils.DetectLanguage(f.name);
    assert Fence.IsWord(lang) && lang != "" by {
      FileUtils.DetectLanguageListed(f.name);
      FileUtils.FileLanguagesAreWords(lang);
      assert lang in FileUtils.FileLanguages;
    }
    var prefix := "File: " + f.name + "\n\n";
    assert Fence.NoTicks(prefix) && prefix[|prefix| - 1] != '`' by {
      ConcatKeepsOut("File: ", f.name, '`');
      ConcatKeepsOut("File: " + f.name, "\n\n", '`');
      Fence.NoBacktickNoTicks(prefix);
    }
    assert Fence.ExtractCodeBlocks(prefix + Fence.FenceOf(lang, text)) == [CodeBlock(Fence.BlockLanguage(lang), Trim(text))] by {
      Fence.ExtractAfterPrefix(prefix, lang, text);
    }
    assert AttachmentText(f.name, lang, text) == prefix + Fence.FenceOf(lang, text);
  }

  /* ----- inserting code ----- */

  /** `["```" + lang, code, "```"].join("\n")`: the code fenced with its language. */
  function CodeBlockText(lang: string, code: string): (r: string)
    ensures r == Fence.FenceOf(lang, code)
  {
    var parts := ["```" + lang, code, "```"];
    assert Join(parts[1..], "\n") == code + "\n" + "```" by {
      assert Join(parts[2..], "\n") == "```";
    }
    Join(parts, "\n")
  }

  /** `text.slice(0, c) + block + text.slice(c)`: `block` inserted at `c`, everything around it
      kept. */
  function InsertAt(text: string, c: nat, block: string): (r: string)
    requires c <= |text|
    ensures |r| == |text| + |block|
    ensures r[..c] == text[..c]
    ensures r[c..c + |block|] == block
    ensures r[c + |block|..] == text[c..]
  {
    var r := text[..c] + block + text[c..];
    assert r[..c] == text[..c];
    assert r[c..c + |block|] == block;
    assert r[c + |block|..] == text[c..];
    r
  }

  /** The cursor position as JavaScript's `slice` sees it: a position past the end is the end. */
  function Clamp(cursor: nat, length: nat): (c: nat)
    ensures c <= length
    ensures c == cursor || (cursor > length && c == length)
  {
    if cursor <= length then cursor else length
  }

  /** What pasting does. Text that does not look like code is left to the browser (None).
      Likely code is detected, formatted and inserted fenced at the cursor. */
  function PasteCode(
    input: string, cursor: nat, pasted: string,
    probes: FileUtils.CodeProbes, pretty: (string, string) -> FileUtils.Printed, keywords: string -> bool
  ): (r: Option<string>)
    ensures r.None? <==> !FileUtils.IsLikelyCode(pasted, keywords)
    ensures r.Some? ==>
      var lang := FileUtils.DetectCodeLanguage(probes, pasted);
      r.value == InsertAt(input, Clamp(cursor, |input|), Fence.FenceOf(lang, FileUtils.FormatCode(pasted, lang, pretty)))
  {
    if !FileUtils.IsLikelyCode(pasted, keywords) then None
    else
      var detected := FileUtils.DetectCodeLanguage(probes, pasted);
      FileUtils.CodeLanguagesAreWords(detected);
      var lang := if detected == "" then "plaintext" else detected;
      var block := CodeBlockText(lang, FileUtils.FormatCode(pasted, lang, pretty));
      Some(InsertAt(input, Clamp(cursor, |input|), block))
  }

  /** What typing does (`handleInputChange`): when the new value is more than 30 characters
      longer than the input and the text past the old input looks like code, that text is
      fenced, formatted and appended to the old input in its place; otherwise the new value is
      taken as it is. Lengths and the cut are counted in characters. */
  function ChangeInput(
    prev: string, value: string,
    probes: FileUtils.CodeProbes, pretty: (string, string) -> FileUtils.Printed, keywords: string -> bool
  ): (r: string)
    ensures |value| <= |prev| + 30 ==> r == value
    ensures |value| > |prev| + 30 && !FileUtils.IsLikelyCode(value[|prev|..], keywords) ==> r == value
    ensures |value| > |prev| + 30 && FileUtils.IsLikelyCode(value[|prev|..], keywords) ==>
      var chunk := value[|prev|..];
      var lang := FileUtils.DetectCodeLanguage(probes, chunk);
      r == prev + Fence.FenceOf(lang, FileUtils.FormatCode(chunk, lang, pretty))
  {
    if |value| <= |prev| + 30 then value
    else
      var chunk := value[|prev|..];
      if !FileUtils.IsLikelyCode(chunk, keywords) then value
      else
        var detected := FileUtils.DetectCodeLanguage(probes, chunk);
        FileUtils.CodeLanguagesAreWords(detected);
        var lang := if detected == "" then "plaintext" else detected;
        prev + CodeBlockText(lang, FileUtils.FormatCode(chunk, lang, pretty))
  }

  /** Typing a long chunk of code after the input is pasting it with the cursor at the end. */
  lemma TypingIsPastingAtEnd(
    prev: string, chunk: string,
    probes: FileUtils.CodeProbes, pretty: (string, string) -> FileUtils.Printed, keywords: string -> bool)
    requires |chunk| > 30 && FileUtils.IsLikelyCode(chunk, keywords)
    ensures Some(ChangeInput(prev, prev + chunk, probes, pretty, keywords))
         == PasteCode(prev, |prev|, chunk, probes, pretty, keywords)
  {
    assert (prev + chunk)[|prev|..] == chunk;
    var lang := FileUtils.DetectCodeLanguage(probes, chunk);
    var block := Fence.FenceOf(lang, FileUtils.FormatCode(chunk, lang, pretty));
    assert Clamp(|prev|, |prev|) == |prev|;
    assert prev[..|prev|] + block + prev[|prev|..] == prev + block by {
      assert prev[..|prev|] == prev && prev[|prev|..] == "";
    }
  }

  /** What a "use code" event does to the input: nothing for empty code; otherwise the code,
      fenced with its detected language, alone or after the current input and a blank line. */
  function UseCode(prev: string, code: string, probes: FileUtils.CodeProbes): (r: string)
    ensures code == "" ==> r == prev
    ensures code != "" && prev == "" ==> r == Fence.FenceOf(FileUtils.DetectCodeLanguage(probes, code), code)
    ensures code != "" && prev != "" ==>
      r == prev + "\n\n" + Fence.FenceOf(FileUtils.DetectCodeLanguage(probes, code), code)
  {
    if code == "" then prev
    else
      var detected := FileUtils.DetectCodeLanguage(probes, code);
      FileUtils.CodeLanguagesAreWords(detected);
      var lang := if detected == "" then "plaintext" else detected;
      var block := CodeBlockText(lang, code);
      if prev != "" then prev + "\n\n" + block else block
  }

  /** Round trip with the extractor: using code free of "```" in an input free of "```" adds
      exactly one block, in the detected language, with the trimmed code. */
  lemma UseCodeRoundTrip(prev: string, code: string, probes: FileUtils.CodeProbes)
    requires Fence.NoTicks(prev) && Fence.NoTicks(code) && code != ""
    ensures Fence.ExtractCodeBlocks(UseCode(prev, code, probes))
      == [CodeBlock(FileUtils.DetectCodeLanguage(probes, code), Trim(code))]
  {
    var lang := FileUtils.DetectCodeLanguage(probes, code);
    FileUtils.CodeLanguagesAreWords(lang);
    if prev == "" {
      assert UseCode(prev, code, probes) == "" + Fence.FenceOf(lang, code);
      Fence.ExtractAfterPrefix("", lang, code);
    }
    else {
      var prefix := prev + "\n\n";
      Fence.NoBacktickNoTicks("\n\n");
      Fence.NoTicksJoin(prev, "\n\n");
      Fence.ExtractAfterPrefix(prefix, lang, code);
    }
  }
}
