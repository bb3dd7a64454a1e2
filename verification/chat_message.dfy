/** components/chat/chat-message.tsx: what the copy and download buttons of a message produce,
    and when the download button is shown. */
module ChatMessage {
  import opened Wrappers
  import opened Strings
  import opened Types
  import Fence
  import MessageContent

  /** What the copy button does: nothing to copy for empty content, or the text written to the
      clipboard and whether it is code only (which picks the toast). */
  datatype CopyResult = NothingToCopy | Copied(text: string, codeOnly: bool)

  /** The codes of the blocks, each with its line-number prefixes stripped. */
  function StrippedCodes(blocks: seq<CodeBlock>): (r: seq<string>)
    ensures |r| == |blocks|
    ensures forall i :: 0 <= i < |r| ==> r[i] == MessageContent.StripLineNumbers(blocks[i].code)
  {
    seq(|blocks|, i requires 0 <= i < |blocks| => MessageContent.StripLineNumbers(blocks[i].code))
  }

  /** The codes of the blocks as they are. */
  function Codes(blocks: seq<CodeBlock>): (r: seq<string>)
    ensures |r| == |blocks|
    ensures forall i :: 0 <= i < |r| ==> r[i] == blocks[i].code
  {
    seq(|blocks|, i requires 0 <= i < |blocks| => blocks[i].code)
  }

  /** `copyToClipboard`: the blocks' stripped codes joined by a blank line when there are blocks,
      the whole content otherwise; trimmed either way. */
  function CopyText(content: string): (r: CopyResult)
    ensures r == NothingToCopy <==> content == ""
    ensures r.Copied? ==> IsTrimmed(r.text)
    ensures r.Copied? ==> (r.codeOnly <==> Fence.ExtractCodeBlocks(content) != [])
    ensures r.Copied? && !r.codeOnly ==> r.text == Trim(content)
    ensures r.Copied? && r.codeOnly ==> r.text == Trim(Join(StrippedCodes(Fence.ExtractCodeBlocks(content)), "\n\n"))
  {
    if content == "" then NothingToCopy
    else
      var blocks := Fence.ExtractCodeBlocks(content);
      var text := if |blocks| > 0 then Join(StrippedCodes(blocks), "\n\n") else content;
      Copied(Trim(text), |blocks| > 0)
  }

  /** A message holding one fence copies that fence's code, trimmed and stripped of line
      numbers; the text around the fence is not copied. */
  lemma CopyOneFence(prefix: string, lang: string, code: string)
    requires Fence.NoTicks(prefix) && (prefix == [] || prefix[|prefix| - 1] != '`')
    requires Fence.IsWord(lang) && Fence.NoTicks(code)
    ensures CopyText(prefix + Fence.FenceOf(lang, code))
         == Copied(Trim(MessageContent.StripLineNumbers(Trim(code))), true)
  {
    var content := prefix + Fence.FenceOf(lang, code);
    var b := CodeBlock(Fence.BlockLanguage(lang), Trim(code));
    assert Fence.ExtractCodeBlocks(content) == [b] by {
      Fence.ExtractAfterPrefix(prefix, lang, code);
    }
    assert content != "" by {
      assert |Fence.FenceOf(lang, code)| > 0;
    }
    CopySingleBlock(content, b);
  }

  /** Content with a single block copies that block's code, stripped and trimmed. */
  lemma CopySingleBlock(content: string, b: CodeBlock)
    requires content != "" && Fence.ExtractCodeBlocks(content) == [b]
    ensures CopyText(content) == Copied(Trim(MessageContent.StripLineNumbers(b.code)), true)
  {
    var stripped := MessageContent.StripLineNumbers(b.code);
    var r := CopyText(content);
    assert r.Copied? && r.codeOnly;
    assert r.text == Trim(Join(StrippedCodes([b]), "\n\n"));
    assert StrippedCodes([b]) == [stripped] by {
      var sc := StrippedCodes([b]);
      assert |sc| == 1 && sc[0] == stripped;
    }
    assert Join([stripped], "\n\n") == stripped;
  }

  /** Text without a fence is copied whole, trimmed. */
  lemma CopyProse(content: string)
    requires content != "" && Fence.NoFenceIn(content, 0, |content| + 1)
    ensures CopyText(content) == Copied(Trim(content), false)
  {
    Fence.NoBlocksIffNoFence(content);
  }

  /** `hasCodeBlocks`: whether the download button is shown. */
  function HasCodeBlocks(content: string): (r: bool)
    ensures r <==> !Fence.NoFenceIn(content, 0, |content| + 1)
  {
    Fence.NoBlocksIffNoFence(content);
    |Fence.ExtractCodeBlocks(content)| > 0
  }

  /* ----- download ----- */

  /** The extensions the download check accepts after a dot. */
  const AcceptedExtensions: seq<string> := ["txt", "js", "ts", "html", "css", "py"]

  /** `/\.(txt|js|ts|html|css|py)$/i`: the text ends, case-insensitively, in a dot and one of the
      accepted extensions. */
  predicate EndsWithAcceptedExtension(extension: string) {
    exists i | 0 <= i < |AcceptedExtensions| :: EndsWith(ToLower(extension), "." + AcceptedExtensions[i])
  }

  /** `extension && /\.(txt|js|ts|html|css|py)$/i.test(extension) ? extension : "txt"`, as
      written. */
  function ValidExtensionAsWritten(extension: string): (r: string)
    ensures EndsWithAcceptedExtension(extension) ==> r == extension
    ensures !EndsWithAcceptedExtension(extension) ==> r == "txt"
  {
    if extension != "" && EndsWithAcceptedExtension(extension) then extension else "txt"
  }

  const SnippetStem: string := "code-snippet."

  /** The file a download produces: its name and its text. */
  datatype Download = Download(name: string, body: string)

  /** `downloadCodeBlocks`, as written: nothing for empty content or content without blocks;
      otherwise the blocks' codes, unstripped, joined by a blank line, under
      "code-snippet." + the checked extension. */
  function DownloadCodeBlocksAsWritten(content: string, extension: string): (r: Option<Download>)
    ensures r.Some? <==> HasCodeBlocks(content)
    ensures r.Some? ==> r.value.body == Join(Codes(Fence.ExtractCodeBlocks(content)), "\n\n")
    ensures r.Some? ==> r.value.name == SnippetStem + ValidExtensionAsWritten(extension)
  {
    if content == "" then None
    else
      var blocks := Fence.ExtractCodeBlocks(content);
      if |blocks| == 0 then None
      else Some(Download(SnippetStem + ValidExtensionAsWritten(extension), Join(Codes(blocks), "\n\n")))
  }

  /** The check wants a dot before the extension and the name adds one of its own: every
      accepted extension that begins with a dot gives a name with two dots in a row. */
  lemma AcceptedExtensionDoubleDot(extension: string)
    requires EndsWithAcceptedExtension(extension) && StartsWith(extension, ".")
    ensures Contains(SnippetStem + ValidExtensionAsWritten(extension), "..")
  {
    var name := SnippetStem + extension;
    assert InfixAt(name, "..", |SnippetStem| - 1);
  }

  /** The button passes the chat language (`language || "txt"`), which has no dot, so the check
      always fails and every download is named "code-snippet.txt"; ".js" itself becomes
      "code-snippet..js". */
  lemma DownloadNamesAsWritten()
    ensures SnippetStem + ValidExtensionAsWritten("javascript") == "code-snippet.txt"
    ensures SnippetStem + ValidExtensionAsWritten("py") == "code-snippet.txt"
    ensures SnippetStem + ValidExtensionAsWritten(".js") == "code-snippet..js"
  {
    assert ValidExtensionAsWritten("javascript") == "txt" by {
      NoDotRejected("javascript");
    }
    assert ValidExtensionAsWritten("py") == "txt" by {
      NoDotRejected("py");
    }
    assert ValidExtensionAsWritten(".js") == ".js" by {
      DotJsAccepted();
    }
    StemNames();
  }

  /** The two names the stem gives. */
  lemma StemNames()
    ensures SnippetStem + "txt" == "code-snippet.txt"
    ensures SnippetStem + ".js" == "code-snippet..js"
  {
  }

  /** ".js" passes the check. */
  lemma DotJsAccepted()
    ensures EndsWithAcceptedExtension(".js")
  {
    ToLowerOfLower(".js");
    assert "." + AcceptedExtensions[1] == ".js";
    assert EndsWith(".js", ".js");
  }

  /** A text without a dot never passes the check. */
  lemma NoDotRejected(extension: string)
    requires '.' !in extension
    ensures !EndsWithAcceptedExtension(extension)
  {
    var lower := ToLower(extension);
    forall i | 0 <= i < |AcceptedExtensions| ensures !EndsWith(lower, "." + AcceptedExtensions[i]) {
      var suffix := "." + AcceptedExtensions[i];
      if |suffix| <= |lower| {
        var k := |lower| - |suffix|;
        assert extension[k] in extension;
        assert lower[k] != '.';
        assert lower[k..][0] != suffix[0];
      }
    }
  }

  /** The extension without one leading dot. */
  function Bare(extension: string): (r: string)
    ensures StartsWith(extension, ".") ==> "." + r == extension
    ensures !StartsWith(extension, ".") ==> r == extension
  {
    if StartsWith(extension, ".") then extension[1..] else extension
  }

  /** The extension the download should carry: an accepted extension, given with or without
      its dot, in lower case; "txt" for anything else. */
  function ValidExtension(extension: string): (r: string)
    ensures r in AcceptedExtensions
    ensures ToLower(Bare(extension)) in AcceptedExtensions ==> r == ToLower(Bare(extension))
    ensures ToLower(Bare(extension)) !in AcceptedExtensions ==> r == "txt"
  {
    var lower := ToLower(Bare(extension));
    if lower in AcceptedExtensions then lower else "txt"
  }

  /** No accepted extension holds a dot. */
  lemma AcceptedUndotted(e: string)
    requires e in AcceptedExtensions
    ensures '.' !in e
  {
  }

  /** `downloadCodeBlocks` with the extension check corrected: the name has exactly one dot, and
      the rest is as written. */
  function DownloadCodeBlocks(content: string, extension: string): (r: Option<Download>)
    ensures r.Some? <==> HasCodeBlocks(content)
    ensures r.Some? ==> r.value.body == Join(Codes(Fence.ExtractCodeBlocks(content)), "\n\n")
    ensures r.Some? ==> r.value.name == SnippetStem + ValidExtension(extension)
  {
    if content == "" then None
    else
      var blocks := Fence.ExtractCodeBlocks(content);
      if |blocks| == 0 then None
      else Some(Download(SnippetStem + ValidExtension(extension), Join(Codes(blocks), "\n\n")))
  }

  /** The corrected name is "code-snippet." and one accepted extension, with no dot after the
      stem's own. */
  lemma DownloadNameSingleDot(content: string, extension: string)
    requires HasCodeBlocks(content)
    ensures var name := DownloadCodeBlocks(content, extension).value.name;
      && StartsWith(name, SnippetStem)
      && name[|SnippetStem|..] in AcceptedExtensions
      && '.' !in name[|SnippetStem|..]
  {
    var e := ValidExtension(extension);
    AcceptedUndotted(e);
    var name := SnippetStem + e;
    assert name[|SnippetStem|..] == e;
    assert name[..|SnippetStem|] == SnippetStem;
  }

  /** The corrected check keeps what the button evidently means: ".js" and "js" both give
      "code-snippet.js"; a language name still gives "code-snippet.txt". */
  lemma DownloadNamesCorrected()
    ensures ValidExtension(".js") == "js"
    ensures ValidExtension("js") == "js"
    ensures ValidExtension("javascript") == "txt"
  {
    assert StartsWith(".js", ".") && ".js"[1..] == "js";
    assert Bare(".js") == "js";
    assert "js"[..1][0] != "."[0] && "javascript"[..1][0] != "."[0];
    ToLowerOfLower("js");
    ToLowerOfLower("javascript");
    assert "js" == AcceptedExtensions[1];
    assert "javascript" !in AcceptedExtensions;
  }

  /** A message with one fence downloads that fence's trimmed code, with its line numbers. */
  lemma DownloadOneFence(prefix: string, lang: string, code: string, extension: string)
    requires Fence.NoTicks(prefix) && (prefix == [] || prefix[|prefix| - 1] != '`')
    requires Fence.IsWord(lang) && Fence.NoTicks(code)
    ensures DownloadCodeBlocks(prefix + Fence.FenceOf(lang, code), extension)
         == Some(Download(SnippetStem + ValidExtension(extension), Trim(code)))
  {
    var content := prefix + Fence.FenceOf(lang, code);
    var b := CodeBlock(Fence.BlockLanguage(lang), Trim(code));
    assert Fence.ExtractCodeBlocks(content) == [b] by {
      Fence.ExtractAfterPrefix(prefix, lang, code);
    }
    assert content != "" by {
      assert |Fence.FenceOf(lang, code)| > 0;
    }
    DownloadSingleBlock(content, b, extension);
  }

  /** Content with a single block downloads that block's code as it is. */
  lemma DownloadSingleBlock(content: string, b: CodeBlock, extension: string)
    requires content != "" && Fence.ExtractCodeBlocks(content) == [b]
    ensures DownloadCodeBlocks(content, extension) == Some(Download(SnippetStem + ValidExtension(extension), b.code))
  {
    assert Codes([b]) == [b.code] by {
      var cs := Codes([b]);
      assert |cs| == 1 && cs[0] == b.code;
    }
    assert Join([b.code], "\n\n") == b.code;
  }
}
