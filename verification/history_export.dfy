/** components/chat/chat-history-download.tsx: the chat history as a Markdown or an HTML
    document, and the HTML rendering of one message's text. Fences are found with the same
    scanner as `extractCodeBlocks`. The date and the timestamp are parameters. */
module HistoryExport {
  import opened Wrappers
  import opened Strings
  import opened Types
  import Fence

  /* ----- replacing one character ----- */

  /** `s.replace(/c/g, rep)` for a one-character pattern: every `c` replaced by `rep`. */
  function ReplaceChar(s: string, c: char, rep: string): (r: string)
    ensures c !in s ==> r == s
    ensures c !in rep ==> c !in r
    decreases |s|
  {
    if |s| == 0 then ""
    else
      var rest := ReplaceChar(s[1..], c, rep);
      if s[0] == c then rep + rest
      else
        assert s == [s[0]] + s[1..];
        [s[0]] + rest
  }

  /** A character that is neither kept from the text nor in the replacement is not in the
      result. */
  lemma {:induction false} ReplaceCharKeepsOut(s: string, c: char, rep: string, d: char)
    requires d !in rep && (d !in s || d == c)
    ensures d !in ReplaceChar(s, c, rep)
    decreases |s|
  {
    if |s| > 0 {
      ReplaceCharKeepsOut(s[1..], c, rep, d);
    }
  }

  /** Replacement works piece by piece. */
  lemma {:induction false} ReplaceCharAppend(a: string, b: string, c: char, rep: string)
    ensures ReplaceChar(a + b, c, rep) == ReplaceChar(a, c, rep) + ReplaceChar(b, c, rep)
    decreases |a|
  {
    if |a| == 0 {
      assert a + b == b;
    }
    else {
      assert (a + b)[1..] == a[1..] + b;
      ReplaceCharAppend(a[1..], b, c, rep);
    }
  }

  /** Reference reading: replacing `c` by `rep` is splitting at `c` and joining with `rep`. */
  lemma {:induction false} ReplaceCharIsSplitJoin(s: string, c: char, rep: string)
    ensures ReplaceChar(s, c, rep) == Join(Split(s, c), rep)
    decreases |s|
  {
    if |s| > 0 {
      ReplaceCharIsSplitJoin(s[1..], c, rep);
      var rest := Split(s[1..], c);
      if s[0] != c && |rest| > 1 {
        assert Join(rest, rep) == rest[0] + rep + Join(rest[1..], rep);
        assert ([s[0]] + rest[0]) + rep + Join(rest[1..], rep) == [s[0]] + (rest[0] + rep + Join(rest[1..], rep));
      }
    }
  }

  /** `.replace(/</g, "&lt;").replace(/>/g, "&gt;")`: the code's angle brackets as entities. */
  function EscapeAngles(code: string): (r: string)
    ensures '<' !in r && '>' !in r
    ensures '<' !in code && '>' !in code ==> r == code
  {
    var once := ReplaceChar(code, '<', "&lt;");
    var r := ReplaceChar(once, '>', "&gt;");
    ReplaceCharKeepsOut(once, '>', "&gt;", '<');
    r
  }

  /** What a fence becomes: its body, escaped and untrimmed, in `<pre><code>`. */
  function CodeHtml(body: string): string {
    "<pre><code>" + EscapeAngles(body) + "</code></pre>"
  }

  /* ----- one message's text ----- */

  /** `content.replace(/```(\w+)?\n([\s\S]*?)```/g, ...)` from `from` on: the text between
      fences is kept, each fence becomes its code's HTML, the language is dropped. */
  function ReplaceFencesFrom(s: string, from: nat): string
    requires from <= |s|
    decreases |s| - from
  {
    match Fence.NextMatch(s, from)
    case None => s[from..]
    case Some(m) => s[from..m.start] + CodeHtml(m.body) + ReplaceFencesFrom(s, m.end)
  }

  /** Reference reading over a list of matches: the gap before each match, the match's HTML,
      and the text after the last one. */
  function Rebuild(s: string, from: nat, ms: seq<Fence.Match>): string
    requires from <= |s| && Fence.IsScan(s, from, ms)
    decreases |ms|
  {
    if ms == [] then s[from..]
    else s[from..ms[0].start] + CodeHtml(ms[0].body) + Rebuild(s, ms[0].end, ms[1..])
  }

  /** The exporter replaces exactly the matches `extractCodeBlocks` reports, in order. */
  lemma {:induction false} ReplaceFencesIsRebuild(s: string, from: nat)
    requires from <= |s|
    ensures ReplaceFencesFrom(s, from) == Rebuild(s, from, Fence.MatchesFrom(s, from))
    decreases |s| - from
  {
    match Fence.NextMatch(s, from)
    case None =>
    case Some(m) =>
      ReplaceFencesIsRebuild(s, m.end);
      assert Fence.MatchesFrom(s, from)[1..] == Fence.MatchesFrom(s, m.end);
  }

  /** `formatMessageContent`: fences to HTML, then every line feed to `<br>`. */
  function FormatMessageContent(content: string): (r: string)
    ensures '\n' !in r
  {
    ReplaceChar(ReplaceFencesFrom(content, 0), '\n', "<br>")
  }

  /** Text without a fence is not escaped: only its line feeds change. */
  lemma FormatProse(content: string)
    requires Fence.NoFenceIn(content, 0, |content| + 1)
    ensures FormatMessageContent(content) == ReplaceChar(content, '\n', "<br>")
  {
    assert Fence.NextMatch(content, 0).None?;
    assert content[0..] == content;
  }

  /** A message with one fence: the text before it with its line feeds changed, then the code
      and the line feed before the closing backticks, escaped, in `<pre><code>`. */
  lemma FormatOneFence(prefix: string, lang: string, code: string)
    requires Fence.NoTicks(prefix) && (prefix == [] || prefix[|prefix| - 1] != '`')
    requires Fence.IsWord(lang) && Fence.NoTicks(code)
    ensures FormatMessageContent(prefix + Fence.FenceOf(lang, code))
         == ReplaceChar(prefix, '\n', "<br>") + ReplaceChar(CodeHtml(code + "\n"), '\n', "<br>")
  {
    var s := prefix + Fence.FenceOf(lang, code);
    Fence.MatchesAfterPrefix(prefix, lang, code);
    var m := Fence.Match(|prefix|, lang, code + "\n", |s|);
    assert Fence.NextMatch(s, 0) == Some(m);
    assert Fence.NextMatch(s, |s|).None?;
    assert s[0..|prefix|] == prefix;
    assert ReplaceFencesFrom(s, 0) == prefix + CodeHtml(code + "\n") + "";
    ReplaceCharAppend(prefix, CodeHtml(code + "\n"), '\n', "<br>");
    assert prefix + CodeHtml(code + "\n") + "" == prefix + CodeHtml(code + "\n");
  }

  /* ----- Markdown ----- */

  const MarkdownEmpty: string := "# Chat History\n\n" + "No messages yet."
  const MarkdownSeparator: string := "---\n\n"

  function MarkdownHeader(date: string): string {
    "# TARS Chat History" + "\n\n" + "*Generated on " + date + "*\n\n"
  }

  /** A message is the user's when its role is exactly "user"; every other role, the assistant's
      and any unknown one, is shown as the assistant's. */
  predicate IsUser(role: Role) {
    role == User
  }

  /** "## You" for the user's messages, "## TARS" for every other role. */
  function RoleHeading(role: Role): (r: string)
    ensures r == "## You" <==> IsUser(role)
  {
    if IsUser(role) then "## You" else "## TARS"
  }

  function MarkdownSection(m: Message): string {
    RoleHeading(m.role) + "\n\n" + m.content + "\n\n"
  }

  function MarkdownSections(ms: seq<Message>): (r: seq<string>)
    ensures |r| == |ms|
    ensures forall i :: 0 <= i < |ms| ==> r[i] == MarkdownSection(ms[i])
  {
    seq(|ms|, i requires 0 <= i < |ms| => MarkdownSection(ms[i]))
  }

  /** Reference reading of the Markdown document: the header, then the sections joined by the
      separator. */
  function MarkdownDocument(messages: seq<Message>, date: string): string {
    if messages == [] then MarkdownEmpty
    else MarkdownHeader(date) + Join(MarkdownSections(messages), MarkdownSeparator)
  }

  /** `formatChatHistoryAsMarkdown`: the `forEach` appends each section, and the separator after
      every one but the last. */
  method FormatChatHistoryAsMarkdown(messages: seq<Message>, date: string) returns (md: string)
    ensures md == MarkdownDocument(messages, date)
  {
    if |messages| == 0 {
      return MarkdownEmpty;
    }
    md := AppendJoined(MarkdownHeader(date), MarkdownSections(messages), MarkdownSeparator);
  }

  /** The document holds one section per message, n - 1 separators between them, and ends with
      the last message's section. */
  lemma MarkdownShape(messages: seq<Message>, date: string)
    requires messages != []
    ensures var body := Join(MarkdownSections(messages), MarkdownSeparator);
      && MarkdownDocument(messages, date) == MarkdownHeader(date) + body
      && |body| == SumLengths(MarkdownSections(messages)) + (|messages| - 1) * |MarkdownSeparator|
      && EndsWith(MarkdownDocument(messages, date), MarkdownSection(messages[|messages| - 1]))
  {
    var sections := MarkdownSections(messages);
    var body := Join(sections, MarkdownSeparator);
    JoinLength(sections, MarkdownSeparator);
    JoinEndsWithLast(sections, MarkdownSeparator);
    var doc := MarkdownHeader(date) + body;
    var last := sections[|sections| - 1];
    assert doc[|doc| - |last|..] == body[|body| - |last|..];
  }

  /* ----- HTML ----- */

  const HtmlEmpty: string := "<h1>Chat History</h1>" + "<p>No messages yet.</p>"

  /** The document up to the title, with its style sheet. */
  const HtmlPreamble: string :=
    "<!DOCTYPE html>\n" +
    "<html lang=\"en\">\n" +
    "<head>\n" +
    "  <meta charset=\"UTF-8\">\n" +
    "  <meta name=\"viewport\" content=\"width=device-width, initial-scale=1.0\">\n" +
    "  <title>TARS Chat History</title>\n" +
    "  <style>\n" +
    "    body {\n" +
    "      font-family: -apple-system, BlinkMacSystemFont, 'Segoe UI', Roboto, Oxygen, Ubuntu, Cantarell, 'Open Sans', 'Helvetica Neue', sans-serif;\n" +
    "      line-height: 1.6;\n" +
    "      color: #333;\n" +
    "      max-width: 800px;\n" +
    "      margin: 0 auto;\n" +
    "      padding: 20px;\n" +
    "    }\n" +
    "    h1 {\n" +
    "      color: #6366f1;\n" +
    "      border-bottom: 2px solid #6366f1;\n" +
    "      padding-bottom: 10px;\n" +
    "    }\n" +
    "    .meta {\n" +
    "      color: #666;\n" +
    "      font-style: italic;\n" +
    "      margin-bottom: 30px;\n" +
    "    }\n" +
    "    .message {\n" +
    "      margin-bottom: 30px;\n" +
    "      border-bottom: 1px solid #eee;\n" +
    "      padding-bottom: 20px;\n" +
    "    }\n" +
    "    .message:last-child {\n" +
    "      border-bottom: none;\n" +
    "    }\n" +
    "    .role {\n" +
    "      font-weight: bold;\n" +
    "      color: #6366f1;\n" +
    "      margin-bottom: 10px;\n" +
    "    }\n" +
    "    .user {\n" +
    "      color: #3b82f6;\n" +
    "    }\n" +
    "    .assistant {\n" +
    "      color: #10b981;\n" +
    "    }\n" +
    "    pre {\n" +
    "      background-color: #f7f7f7;\n" +
    "      padding: 10px;\n" +
    "      border-radius: 5px;\n" +
    "      overflow-x: auto;\n" +
    "    }\n" +
    "    code {\n" +
    "      font-family: 'Courier New', Courier, monospace;\n" +
    "    }\n" +
    "  </style>\n" +
    "</head>\n" +
    "<body>\n" +
    "  <h1>TARS Chat History</h1>\n"

  const HtmlTail: string := "</body>\n</html>"

  function HtmlHead(date: string): string {
    HtmlPreamble + "  <div class=\"meta\">" + "Generated on " + date + "</div>\n"
  }

  /** The class of a message's role line: "user" for the user, "assistant" for every other role. */
  function RoleClass(role: Role): (r: string)
    ensures r == "user" <==> IsUser(role)
  {
    if IsUser(role) then "user" else "assistant"
  }

  function RoleName(role: Role): (r: string)
    ensures r == "You" <==> IsUser(role)
  {
    if IsUser(role) then "You" else "TARS"
  }

  const DivOpen: string := "  <div class=" + "\"message\">\n" + "    <div class=" + "\"role "
  const RoleClose: string := "</div>\n"
  const ContentOpen: string := "    <div class=" + "\"content\">"
  const DivClose: string := "</div>\n" + "  </div>\n"

  /** One message's block: its role class and name, then its formatted text. */
  function MessageDiv(m: Message): string {
    DivOpen + RoleClass(m.role) + "\">" + RoleName(m.role) + RoleClose
      + ContentOpen + FormatMessageContent(m.content) + DivClose
  }

  function MessageDivs(ms: seq<Message>): (r: seq<string>)
    ensures |r| == |ms|
    ensures forall i :: 0 <= i < |ms| ==> r[i] == MessageDiv(ms[i])
  {
    seq(|ms|, i requires 0 <= i < |ms| => MessageDiv(ms[i]))
  }

  /** Reference reading of the HTML document: the head, one block per message, the tail. */
  function HtmlDocument(messages: seq<Message>, date: string): string {
    if messages == [] then HtmlEmpty
    else HtmlHead(date) + Concat(MessageDivs(messages)) + HtmlTail
  }

  /** `formatChatHistoryAsHTML`: the head, one block per message, the tail. */
  method FormatChatHistoryAsHtml(messages: seq<Message>, date: string) returns (html: string)
    ensures html == HtmlDocument(messages, date)
  {
    if |messages| == 0 {
      return HtmlEmpty;
    }
    html := AppendMessageDivs(HtmlHead(date), messages);
    html := html + HtmlTail;
  }

  /** The `forEach` of `formatChatHistoryAsHTML`: appends each message's block in turn. */
  method AppendMessageDivs(head: string, messages: seq<Message>) returns (html: string)
    ensures html == head + Concat(MessageDivs(messages))
  {
    html := AppendAll(head, MessageDivs(messages));
  }

  /** Appends the parts one after another. */
  method AppendAll(head: string, parts: seq<string>) returns (r: string)
    ensures r == head + Concat(parts)
  {
    r := head;
    var i := 0;
    while i < |parts|
      invariant 0 <= i <= |parts|
      invariant r == head + Concat(parts[..i])
    {
      assert parts[..i + 1] == parts[..i] + [parts[i]];
      ConcatAppend(parts[..i], parts[i]);
      r := r + parts[i];
      i := i + 1;
    }
    assert parts[..i] == parts;
  }

  /** Each block opens with its role class, and its formatted text holds no line feed. */
  lemma MessageDivShape(m: Message)
    ensures StartsWith(MessageDiv(m), DivOpen + RoleClass(m.role))
    ensures '\n' !in FormatMessageContent(m.content)
  {
    var p := DivOpen + RoleClass(m.role);
    KeepsPrefix(p, "\">" + RoleName(m.role) + RoleClose + ContentOpen + FormatMessageContent(m.content) + DivClose);
  }

  /* ----- download ----- */

  datatype ExportFormat = Markdown | Html

  /** The file a history download produces. */
  datatype HistoryFile = HistoryFile(name: string, mimeType: string, content: string)

  /** `new Date().toISOString().slice(0, 10)`: the day part of the timestamp. */
  function Day(isoTime: string): (r: string)
    ensures |r| <= 10 && StartsWith(isoTime, r)
  {
    if |isoTime| <= 10 then isoTime else isoTime[..10]
  }

  function Extension(format: ExportFormat): string {
    if format == Markdown then "md" else "html"
  }

  function MimeType(format: ExportFormat): string {
    if format == Markdown then "text/markdown" else "text/html"
  }

  /** The name of the downloaded file: the day of the timestamp and the format's extension. */
  function HistoryFileName(isoTime: string, format: ExportFormat): string {
    "tars-chat-history-" + Day(isoTime) + "." + Extension(format)
  }

  /** Reference reading of the chosen document. */
  function Document(messages: seq<Message>, format: ExportFormat, date: string): string {
    if format == Markdown then MarkdownDocument(messages, date) else HtmlDocument(messages, date)
  }

  /** `downloadChatHistory`: nothing but a warning for an empty history; otherwise the chosen
      document under "tars-chat-history-" + the day + its extension. */
  method DownloadChatHistory(messages: seq<Message>, format: ExportFormat, date: string, isoTime: string)
    returns (r: Option<HistoryFile>)
    ensures r.None? <==> messages == []
    ensures r.Some? ==> r.value == HistoryFile(HistoryFileName(isoTime, format), MimeType(format), Document(messages, format, date))
  {
    if |messages| == 0 {
      return None;
    }
    var content := FormatChatHistory(messages, format, date);
    r := Some(HistoryFile(HistoryFileName(isoTime, format), MimeType(format), content));
  }

  /** The chosen formatter's document. */
  method FormatChatHistory(messages: seq<Message>, format: ExportFormat, date: string) returns (content: string)
    ensures content == Document(messages, format, date)
  {
    if format == Markdown {
      content := FormatChatHistoryAsMarkdown(messages, date);
    }
    else {
      content := FormatChatHistoryAsHtml(messages, date);
    }
  }

  /** The two formats' files differ in name, type and content; both are named after the same
      day. */
  lemma HistoryFileNames(isoTime: string)
    ensures HistoryFileName(isoTime, Markdown) != HistoryFileName(isoTime, Html)
    ensures StartsWith(HistoryFileName(isoTime, Markdown), "tars-chat-history-" + Day(isoTime))
    ensures StartsWith(HistoryFileName(isoTime, Html), "tars-chat-history-" + Day(isoTime))
    ensures EndsWith(HistoryFileName(isoTime, Markdown), ".md")
    ensures EndsWith(HistoryFileName(isoTime, Html), ".html")
  {
    var stem := "tars-chat-history-" + Day(isoTime);
    var md := HistoryFileName(isoTime, Markdown);
    var html := HistoryFileName(isoTime, Html);
    assert md == stem + ".md" && html == stem + ".html";
    KeepsPrefix(stem, ".md");
    KeepsPrefix(stem, ".html");
    assert |md| != |html|;
  }
}
