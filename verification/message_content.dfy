/** components/chat/message-content.tsx: language normalisation, HTML detection, the segmentation
    of a message into prose and code blocks, copy-time line-number stripping and the download
    name of a block. */
module MessageContent {
  import opened Wrappers
  import opened Strings
  import opened JsObjects
  import Fence

  /* ----- normalizeLang ----- */

  /** The alias table of `normalizeLang`. */
  const LangAliases: map<string, string> := map[
    "js" := "javascript", "ts" := "typescript", "jsx" := "javascript", "tsx" := "typescript",
    "sh" := "bash", "shell" := "bash", "md" := "markdown", "yml" := "yaml", "py" := "python",
    "rb" := "ruby", "csharp" := "csharp", "html" := "html", "css" := "css", "json" := "json",
    "go" := "go", "cpp" := "cpp", "c" := "c"]

  /** `normalizeLang` as written: the table is a plain object, so a lower-cased tag that names an
      `Object.prototype` member ("constructor", "__proto__") reads that member, which is truthy
      and is returned in place of a string. */
  function NormalizeLangAsWritten(lang: string): (r: JsValue)
    ensures ToLower(lang) !in PrototypeNames ==> r == Str(NormalizeLang(lang))
  {
    var key := ToLower(lang);
    NormalizeLangCases(lang);
    match Get(LangAliases, key)
    case Some(v) => if Truthy(v) then v else Str(key)
    case None => Str(key)
  }

  /** A tag of word characters reaches `normalizeLang` and comes back as a non-string. */
  lemma NormalizeLangAsWrittenLeaks()
    ensures Fence.IsWord("constructor")
    ensures NormalizeLangAsWritten("constructor") == Inherited("constructor")
  {
    assert ToLower("constructor") == "constructor";
  }

  /** `normalizeLang` with an own-property lookup: the alias of the lower-cased tag, or the
      lower-cased tag itself. */
  function NormalizeLang(lang: string): (r: string)
    ensures IsLowerCase(r)
    ensures r == "" <==> lang == ""
  {
    var key := ToLower(lang);
    AliasesLowerCase(key);
    match GetOwn(LangAliases, key)
    case Some(v) => v
    case None => key
  }

  /** The result is the alias of the lower-cased tag when the table has one, and the lower-cased
      tag otherwise. */
  lemma NormalizeLangCases(lang: string)
    ensures ToLower(lang) in LangAliases ==> NormalizeLang(lang) == LangAliases[ToLower(lang)]
    ensures ToLower(lang) !in LangAliases ==> NormalizeLang(lang) == ToLower(lang)
  {
  }

  lemma AliasesLowerCase(key: string)
    ensures key in LangAliases ==> IsLowerCase(LangAliases[key]) && LangAliases[key] != ""
  {
  }

  /** Every alias maps to itself or to a name the table does not rename further. */
  lemma AliasesSettled(key: string)
    requires key in LangAliases
    ensures LangAliases[key] !in LangAliases || LangAliases[LangAliases[key]] == LangAliases[key]
  {
  }

  /** Normalising twice is normalising once. */
  lemma NormalizeLangIdempotent(lang: string)
    ensures NormalizeLang(NormalizeLang(lang)) == NormalizeLang(lang)
  {
    var key := ToLower(lang);
    var r := NormalizeLang(lang);
    NormalizeLangCases(lang);
    NormalizeLangCases(r);
    ToLowerOfLower(r);
    if key in LangAliases {
      AliasesSettled(key);
    }
  }

  /** The aliases the renderer relies on, case-insensitively. */
  lemma NormalizeLangAliases()
    ensures NormalizeLang("js") == "javascript" && NormalizeLang("JSX") == "javascript"
    ensures NormalizeLang("ts") == "typescript" && NormalizeLang("tsx") == "typescript"
    ensures NormalizeLang("sh") == "bash" && NormalizeLang("Shell") == "bash"
  {
    JavaScriptAliases();
    TypeScriptAliases();
    ShellAliases();
  }

  lemma JavaScriptAliases()
    ensures NormalizeLang("js") == "javascript" && NormalizeLang("JSX") == "javascript"
  {
    ToLowerOfLower("js");
    AliasOf("js", "js", "javascript");
    assert ToLower("JSX") == "jsx";
    AliasOf("JSX", "jsx", "javascript");
  }

  lemma TypeScriptAliases()
    ensures NormalizeLang("ts") == "typescript" && NormalizeLang("tsx") == "typescript"
  {
    ToLowerOfLower("ts");
    AliasOf("ts", "ts", "typescript");
    ToLowerOfLower("tsx");
    AliasOf("tsx", "tsx", "typescript");
  }

  lemma ShellAliases()
    ensures NormalizeLang("sh") == "bash" && NormalizeLang("Shell") == "bash"
  {
    ToLowerOfLower("sh");
    AliasOf("sh", "sh", "bash");
    assert ToLower("Shell") == "shell";
    AliasOf("Shell", "shell", "bash");
  }

  /** A tag whose lower-cased form the table renames. */
  lemma AliasOf(lang: string, lower: string, target: string)
    requires ToLower(lang) == lower && lower in LangAliases && LangAliases[lower] == target
    ensures NormalizeLang(lang) == target
  {
    NormalizeLangCases(lang);
  }

  /* ----- isHtmlCode ----- */

  /** The opening patterns of `isHtmlCode` that stand alone, lower-cased (the regex has `/i`). */
  const HtmlOpeners: seq<string> := [
    "<html", "<!doctype html", "<body", "<head", "<div", "<span", "<p>", "<ul>", "<ol>", "<li>",
    "<table>", "<form>"]

  /** The opening patterns that must be followed by whitespace (`<a\s`, `<img\s`, `<input\s`). */
  const HtmlSpacedOpeners: seq<string> := ["<a", "<img", "<input"]

  /** `pat` (lower case, ASCII) occurs at `k` of `code` ignoring ASCII case. Under `/i` without
      the `u` flag no character outside ASCII matches an ASCII one, so this is exact. */
  predicate InfixAtCI(code: string, pat: string, k: int) {
    InfixAt(ToLower(code), pat, k)
  }

  predicate ContainsCI(code: string, pat: string) {
    exists k | 0 <= k <= |code| - |pat| :: InfixAtCI(code, pat, k)
  }

  /** `pat` followed by one whitespace character (`\s`) occurs somewhere in `code`. */
  predicate ContainsSpacedCI(code: string, pat: string) {
    exists k | 0 <= k < |code| - |pat| :: InfixAtCI(code, pat, k) && IsSpace(code[k + |pat|])
  }

  /** The first regex of `isHtmlCode`: any of the opening patterns. */
  predicate HasHtmlOpener(code: string) {
    || (exists i | 0 <= i < |HtmlOpeners| :: ContainsCI(code, HtmlOpeners[i]))
    || (exists i | 0 <= i < |HtmlSpacedOpeners| :: ContainsSpacedCI(code, HtmlSpacedOpeners[i]))
  }

  predicate IsAsciiLetter(c: char) {
    ('a' <= c <= 'z') || ('A' <= c <= 'Z')
  }

  /** `</` + ASCII letters + `>` spans [k, j]. */
  predicate ClosingTagAt(code: string, k: int, j: int) {
    && 0 <= k && k + 2 < j < |code|
    && code[k] == '<' && code[k + 1] == '/' && code[j] == '>'
    && forall t | k + 2 <= t < j :: IsAsciiLetter(code[t])
  }

  /** The second regex of `isHtmlCode`: `/<\/[a-z]+>/i`. */
  predicate HasClosingTag(code: string) {
    exists k, j | 0 <= k < j < |code| :: ClosingTagAt(code, k, j)
  }

  /** `isHtmlCode`: "html" always previews; the untyped tags ("", "text", "markup", "xml") preview
      when the code shows an opening pattern and a closing tag; every other tag never does. */
  function IsHtmlCode(code: string, lang: string): (r: bool)
    ensures lang == "html" ==> r
    ensures lang !in {"", "text", "markup", "xml", "html"} ==> !r
    ensures lang in {"", "text", "markup", "xml"} ==> (r <==> HasHtmlOpener(code) && HasClosingTag(code))
  {
    if lang == "html" then true
    else if lang in ["text", "markup", "xml"] || lang == "" then HasHtmlOpener(code) && HasClosingTag(code)
    else false
  }

  /** A fragment with a `<div>` and a closing tag previews as HTML when untyped, not when tagged
      with another language, and not without the closing tag. */
  lemma IsHtmlCodeExamples()
    ensures IsHtmlCode("<div>hi</div>", "")
    ensures !IsHtmlCode("<div>hi</div>", "python")
    ensures !IsHtmlCode("<div>", "text")
  {
    var c := "<div>hi</div>";
    assert ToLower(c)[0..4] == "<div";
    assert InfixAtCI(c, HtmlOpeners[4], 0);
    assert ClosingTagAt(c, 7, 12);
    var d := "<div>";
    forall k, j | 0 <= k < j < |d| ensures !ClosingTagAt(d, k, j) {
      assert d[1] != '/' && d[2] != '/' && d[3] != '/' && d[4] != '/';
    }
  }

  /* ----- segmentation ----- */

  /** A rendered part of a message: a markdown text block or a code block. */
  datatype Segment = Prose(text: string) | Code(lang: string, code: string, fileName: string, blockIndex: nat)

  /** A code block's text after the optional "File:" header line is split off. */
  datatype FileSplit = FileSplit(fileName: string, code: string)

  /** The "File:" split: trimmed code that starts with "File:" and has a line break gives the
      trimmed rest of the first line as file name and the trimmed remaining lines as code;
      otherwise the code is kept whole with no file name. */
  function SplitFileHeader(code: string): (r: FileSplit)
    ensures !StartsWith(code, "File:") || '\n' !in code ==> r == FileSplit("", code)
  {
    if StartsWith(code, "File:") then
      var nl := IndexOf(code, '\n');
      if nl != -1 then
        FileSplit(Trim(code[5..nl]), Trim(code[nl + 1..]))
      else FileSplit("", code)
    else FileSplit("", code)
  }

  /** A header written as "File:" + name + newline + body splits back into the trimmed name and
      the trimmed body. */
  lemma SplitFileHeaderRoundTrip(name: string, body: string)
    requires '\n' !in name
    ensures SplitFileHeader("File:" + name + "\n" + body) == FileSplit(Trim(name), Trim(body))
  {
    var c := "File:" + name + "\n" + body;
    assert c[..5] == "File:";
    var n := 5 + |name|;
    assert c[n] == '\n';
    assert '\n' in c;
    assert c[5..n] == name;
    assert c[n + 1..] == body;
    var nl := IndexOf(c, '\n');
    assert '\n' !in c[..n] by {
      assert c[..n] == "File:" + name;
    }
    assert nl == n;
  }

  /** The language hint of a match: the word, "text" when absent, through `normalizeLang`. */
  function SegmentLang(m: Fence.Match): string {
    var raw := Fence.BlockLanguage(m.lang);
    NormalizeLang(if Trim(raw) == "" then "text" else Trim(raw))
  }

  /** The code segment a match produces as the `index`-th block. */
  function CodeSegment(m: Fence.Match, index: nat): (seg: Segment)
    ensures seg.Code? && seg.blockIndex == index
  {
    var split := SplitFileHeader(Trim(m.body));
    Code(SegmentLang(m), split.code, split.fileName, index)
  }

  /** A text block for the trimmed text, or nothing when it is blank. */
  function ProseIfAny(text: string): (segs: seq<Segment>)
    ensures |segs| <= 1
    ensures segs == [] <==> AllSpace(text)
  {
    var t := Trim(text);
    if t != "" then [Prose(t)] else []
  }

  /** Matches in text order, each inside the text and none before `last`. */
  predicate Ordered(s: string, last: nat, ms: seq<Fence.Match>)
    decreases |ms|
  {
    if ms == [] then last <= |s|
    else last <= ms[0].start < ms[0].end <= |s| && Ordered(s, ms[0].end, ms[1..])
  }

  /** A scan is ordered. */
  lemma {:induction false} ScanOrdered(s: string, from: nat, ms: seq<Fence.Match>)
    requires Fence.IsScan(s, from, ms) && from <= |s|
    ensures Ordered(s, from, ms)
    decreases |ms|
  {
    if ms != [] {
      assert Fence.MatchAt(s, ms[0].start) == Some(ms[0]);
      ScanOrdered(s, ms[0].end, ms[1..]);
    }
  }

  /** The segmentation loop from `lastIndex == last` over the matches `ms`, whose code blocks
      are `codes`: the trimmed gap before each match if not blank, the match's code block, and
      finally the trimmed remainder if not blank. */
  function SegmentsOf(s: string, ms: seq<Fence.Match>, codes: seq<Segment>, last: nat): seq<Segment>
    requires Ordered(s, last, ms) && |codes| == |ms|
    decreases |ms|
  {
    if ms == [] then ProseIfAny(s[last..])
    else
      (if ms[0].start > last then ProseIfAny(s[last..ms[0].start]) else [])
      + [codes[0]]
      + SegmentsOf(s, ms[1..], codes[1..], ms[0].end)
  }

  /** The code block of each match, numbered by `blockIndex` from 0. */
  function CodeSegments(ms: seq<Fence.Match>): (codes: seq<Segment>)
    ensures |codes| == |ms|
    ensures forall i :: 0 <= i < |ms| ==> codes[i] == CodeSegment(ms[i], i)
  {
    seq(|ms|, i requires 0 <= i < |ms| => CodeSegment(ms[i], i))
  }

  /** The segments of a message rendered with syntax highlighting. */
  function Segments(content: string): seq<Segment>
  {
    var ms := Fence.Matches(content);
    ScanOrdered(content, 0, ms);
    SegmentsOf(content, ms, CodeSegments(ms), 0)
  }

  /** The code segments of a list, in order. */
  function CodesOf(segs: seq<Segment>): seq<Segment>
  {
    if segs == [] then [] else (if segs[0].Code? then [segs[0]] else []) + CodesOf(segs[1..])
  }

  /** The texts of the prose segments of a list, in order. */
  function ProseTexts(segs: seq<Segment>): seq<string>
  {
    if segs == [] then [] else (if segs[0].Prose? then [segs[0].text] else []) + ProseTexts(segs[1..])
  }

  lemma {:induction false} CodesOfAppend(a: seq<Segment>, b: seq<Segment>)
    ensures CodesOf(a + b) == CodesOf(a) + CodesOf(b)
    decreases |a|
  {
    if a != [] {
      assert (a + b)[1..] == a[1..] + b;
      CodesOfAppend(a[1..], b);
    }
    else {
      assert a + b == b;
    }
  }

  lemma {:induction false} ProseTextsAppend(a: seq<Segment>, b: seq<Segment>)
    ensures ProseTexts(a + b) == ProseTexts(a) + ProseTexts(b)
    decreases |a|
  {
    if a != [] {
      assert (a + b)[1..] == a[1..] + b;
      ProseTextsAppend(a[1..], b);
    }
    else {
      assert a + b == b;
    }
  }

  /** The texts between the matches: before each one, and after the last. */
  function Gaps(s: string, last: nat, ms: seq<Fence.Match>): (gs: seq<string>)
    requires Ordered(s, last, ms)
    ensures |gs| == |ms| + 1
    decreases |ms|
  {
    if ms == [] then [s[last..]]
    else [s[last..ms[0].start]] + Gaps(s, ms[0].end, ms[1..])
  }

  /** The non-blank texts of a list, trimmed. */
  function NonBlankTrimmed(texts: seq<string>): (ts: seq<string>)
    ensures forall i :: 0 <= i < |ts| ==> ts[i] != "" && IsTrimmed(ts[i])
  {
    if texts == [] then []
    else (if AllSpace(texts[0]) then [] else [Trim(texts[0])]) + NonBlankTrimmed(texts[1..])
  }

  lemma ProseIfAnyHasNoCode(text: string)
    ensures CodesOf(ProseIfAny(text)) == []
  {
    if !AllSpace(text) {
      assert ProseIfAny(text)[1..] == [];
    }
  }

  /** The code segments of the loop's output are exactly the code blocks, in order. */
  lemma {:induction false} SegmentsCodes(s: string, ms: seq<Fence.Match>, codes: seq<Segment>, last: nat)
    requires Ordered(s, last, ms) && |codes| == |ms|
    requires forall i :: 0 <= i < |codes| ==> codes[i].Code?
    ensures CodesOf(SegmentsOf(s, ms, codes, last)) == codes
    decreases |ms|
  {
    if ms == [] {
      ProseIfAnyHasNoCode(s[last..]);
    }
    else {
      var gap := if ms[0].start > last then ProseIfAny(s[last..ms[0].start]) else [];
      var rest := SegmentsOf(s, ms[1..], codes[1..], ms[0].end);
      assert SegmentsOf(s, ms, codes, last) == gap + [codes[0]] + rest;
      assert CodesOf(gap) == [] by {
        ProseIfAnyHasNoCode(s[last..ms[0].start]);
      }
      assert CodesOf(rest) == codes[1..] by {
        assert forall i :: 0 <= i < |codes| - 1 ==> codes[1..][i] == codes[i + 1];
        SegmentsCodes(s, ms[1..], codes[1..], ms[0].end);
      }
      CodesOfStep(gap, codes, rest);
    }
  }

  /** Prose, then the first code block, then segments whose code blocks are the others: the code
      blocks of the whole are all of them. */
  lemma CodesOfStep(gap: seq<Segment>, codes: seq<Segment>, rest: seq<Segment>)
    requires |codes| >= 1 && codes[0].Code? && CodesOf(gap) == [] && CodesOf(rest) == codes[1..]
    ensures CodesOf(gap + [codes[0]] + rest) == codes
  {
    CodesOfCons(gap, codes[0], rest);
    assert codes == [codes[0]] + codes[1..];
  }

  /** A code block between prose and further segments keeps its place among the code segments. */
  lemma CodesOfCons(gap: seq<Segment>, code: Segment, rest: seq<Segment>)
    requires CodesOf(gap) == [] && code.Code?
    ensures CodesOf(gap + [code] + rest) == [code] + CodesOf(rest)
  {
    CodesOfAppend(gap + [code], rest);
    CodesOfAppend(gap, [code]);
    assert [code][1..] == [];
  }

  /** Prose segments are exactly the non-blank gaps, trimmed, in order. */
  lemma {:induction false} SegmentsProse(s: string, ms: seq<Fence.Match>, codes: seq<Segment>, last: nat)
    requires Ordered(s, last, ms) && |codes| == |ms|
    requires forall i :: 0 <= i < |codes| ==> codes[i].Code?
    ensures ProseTexts(SegmentsOf(s, ms, codes, last)) == NonBlankTrimmed(Gaps(s, last, ms))
    decreases |ms|
  {
    if ms == [] {
      ProseOfOne(s[last..]);
      assert [s[last..]][1..] == [];
    }
    else {
      assert forall i :: 0 <= i < |codes| - 1 ==> codes[1..][i] == codes[i + 1];
      SegmentsProse(s, ms[1..], codes[1..], ms[0].end);
      SegmentsProseStep(s, ms, codes, last);
    }
  }

  /** One step of the induction above: the first gap's text, if any, comes before the rest. */
  lemma SegmentsProseStep(s: string, ms: seq<Fence.Match>, codes: seq<Segment>, last: nat)
    requires Ordered(s, last, ms) && |codes| == |ms| && ms != [] && codes[0].Code?
    requires ProseTexts(SegmentsOf(s, ms[1..], codes[1..], ms[0].end)) == NonBlankTrimmed(Gaps(s, ms[0].end, ms[1..]))
    ensures ProseTexts(SegmentsOf(s, ms, codes, last)) == NonBlankTrimmed(Gaps(s, last, ms))
  {
    var g := s[last..ms[0].start];
    var gap := if ms[0].start > last then ProseIfAny(g) else [];
    assert gap == ProseIfAny(g) by {
      if ms[0].start <= last {
        assert g == [];
      }
    }
    var rest := SegmentsOf(s, ms[1..], codes[1..], ms[0].end);
    assert SegmentsOf(s, ms, codes, last) == gap + [codes[0]] + rest;
    ProseBeforeCode(g, codes[0], rest);
    var gs := Gaps(s, last, ms);
    assert gs == [g] + Gaps(s, ms[0].end, ms[1..]);
    NonBlankTrimmedCons(g, Gaps(s, ms[0].end, ms[1..]));
  }

  /** The prose of a gap, a code segment and further segments: the gap's trimmed text if it is
      not blank, then the further prose. */
  lemma ProseBeforeCode(g: string, code: Segment, rest: seq<Segment>)
    requires code.Code?
    ensures ProseTexts(ProseIfAny(g) + [code] + rest)
         == (if AllSpace(g) then [] else [Trim(g)]) + ProseTexts(rest)
  {
    var gap := ProseIfAny(g);
    ProseTextsAppend(gap + [code], rest);
    ProseTextsAppend(gap, [code]);
    assert ProseTexts([code]) == [] by {
      assert [code][1..] == [];
    }
    ProseOfOne(g);
  }

  lemma NonBlankTrimmedCons(g: string, gs: seq<string>)
    ensures NonBlankTrimmed([g] + gs) == (if AllSpace(g) then [] else [Trim(g)]) + NonBlankTrimmed(gs)
  {
    assert ([g] + gs)[1..] == gs;
  }

  lemma ProseOfOne(text: string)
    ensures ProseTexts(ProseIfAny(text)) == (if AllSpace(text) then [] else [Trim(text)])
  {
    if !AllSpace(text) {
      assert ProseIfAny(text)[1..] == [];
    }
  }

  /** The code segments of a rendered message are the code blocks of its matches, numbered in
      order; its text blocks are its non-blank gaps, trimmed, in order. */
  lemma SegmentsShape(content: string)
    ensures var ms := Fence.Matches(content);
      && Ordered(content, 0, ms)
      && CodesOf(Segments(content)) == CodeSegments(ms)
      && ProseTexts(Segments(content)) == NonBlankTrimmed(Gaps(content, 0, ms))
  {
    var ms := Fence.Matches(content);
    ScanOrdered(content, 0, ms);
    SegmentsCodes(content, ms, CodeSegments(ms), 0);
    SegmentsProse(content, ms, CodeSegments(ms), 0);
  }

  /** Each code segment carries the corresponding extracted block: its language normalised, its
      code split at the "File:" header. */
  lemma CodeSegmentOfBlock(content: string, i: nat)
    requires i < |Fence.ExtractCodeBlocks(content)|
    ensures var seg := CodeSegments(Fence.Matches(content))[i];
      var block := Fence.ExtractCodeBlocks(content)[i];
      && seg.blockIndex == i
      && seg.lang == NormalizeLang(block.language)
      && FileSplit(seg.fileName, seg.code) == SplitFileHeader(block.code)
  {
    var ms := Fence.Matches(content);
    var m := ms[i];
    Fence.MatchShape(content, i);
    WordTrimmed(Fence.BlockLanguage(m.lang));
    assert CodeSegments(ms)[i] == CodeSegment(m, i);
    assert Fence.ExtractCodeBlocks(content)[i].language == Fence.BlockLanguage(m.lang);
  }

  /** A non-empty word has no surrounding whitespace. */
  lemma WordTrimmed(w: string)
    requires Fence.IsWord(w) && w != ""
    ensures Trim(w) == w
  {
    assert Fence.IsWordChar(w[0]) && Fence.IsWordChar(w[|w| - 1]);
    TrimTrimmed(w);
  }

  /** A message without any fence renders as one text block holding the trimmed message, or as
      nothing when it is blank. */
  lemma SegmentsWithoutFence(content: string)
    requires Fence.ExtractCodeBlocks(content) == []
    ensures Segments(content) == ProseIfAny(content)
  {
    assert content[0..] == content;
  }

  /* ----- copy-time line-number stripping ----- */

  predicate IsDigit(c: char) {
    '0' <= c <= '9'
  }

  /** `line[..k]` matches `\s*\d+(?:\s{2,}|\t+)` with the leading whitespace ending at `a` and
      the digits ending at `b`. A separator of one character must be a tab; a longer one is any
      whitespace, which covers the tab runs too. */
  predicate NumberPrefixAt(line: string, a: int, b: int, k: int) {
    && 0 <= a < b < k <= |line|
    && (forall t :: 0 <= t < a ==> IsSpace(line[t]))
    && (forall t :: a <= t < b ==> IsDigit(line[t]))
    && (forall t :: b <= t < k ==> IsSpace(line[t]))
    && (k - b >= 2 || line[b] == '\t')
  }

  /** `line[..k]` is a line-number prefix: some split of it matches the pattern. */
  predicate IsNumberPrefix(line: string, k: int) {
    exists a, b | 0 <= a < b < k :: NumberPrefixAt(line, a, b, k)
  }

  /** The length of the whitespace run of `s` starting at `i`. */
  function SpaceRun(s: string, i: nat): (n: nat)
    requires i <= |s|
    ensures i + n <= |s|
    ensures forall t :: i <= t < i + n ==> IsSpace(s[t])
    ensures i + n == |s| || !IsSpace(s[i + n])
    decreases |s| - i
  {
    if i < |s| && IsSpace(s[i]) then 1 + SpaceRun(s, i + 1) else 0
  }

  /** The length of the run of ASCII digits of `s` starting at `i`. */
  function DigitRun(s: string, i: nat): (n: nat)
    requires i <= |s|
    ensures i + n <= |s|
    ensures forall t :: i <= t < i + n ==> IsDigit(s[t])
    ensures i + n == |s| || !IsDigit(s[i + n])
    decreases |s| - i
  {
    if i < |s| && IsDigit(s[i]) then 1 + DigitRun(s, i + 1) else 0
  }

  /** A whitespace stretch from `i` to `j` lies inside the run starting at `i`. */
  lemma {:induction false} SpaceRunCovers(s: string, i: nat, j: nat)
    requires i <= j <= |s|
    requires forall t :: i <= t < j ==> IsSpace(s[t])
    ensures i + SpaceRun(s, i) >= j
    decreases j - i
  {
    if i < j {
      SpaceRunCovers(s, i + 1, j);
    }
  }

  /** A run that stops at a non-space character is the whole run. */
  lemma SpaceRunIs(s: string, i: nat, j: nat)
    requires i <= j < |s|
    requires forall t :: i <= t < j ==> IsSpace(s[t])
    requires !IsSpace(s[j])
    ensures SpaceRun(s, i) == j - i
  {
    SpaceRunCovers(s, i, j);
  }

  /** A digit stretch from `i` to `j` lies inside the run starting at `i`. */
  lemma {:induction false} DigitRunCovers(s: string, i: nat, j: nat)
    requires i <= j <= |s|
    requires forall t :: i <= t < j ==> IsDigit(s[t])
    ensures i + DigitRun(s, i) >= j
    decreases j - i
  {
    if i < j {
      DigitRunCovers(s, i + 1, j);
    }
  }

  /** How much of `line` the line-number pattern removes: 0 when it does not match. The greedy
      quantifiers leave no choice: the whitespace stops at the first digit, the digits at the first
      non-digit, and the separator is the whole whitespace run after them when it has two or more
      characters, else a single tab. */
  function NumberPrefixLength(line: string): (k: nat)
    ensures k <= |line|
  {
    var a := SpaceRun(line, 0);
    var d := DigitRun(line, a);
    if d == 0 then 0
    else
      var b := a + d;
      var r := SpaceRun(line, b);
      if r >= 2 then b + r
      else if r == 1 && line[b] == '\t' then b + 1
      else 0
  }

  /** What the pattern removes is a line-number prefix. */
  lemma NumberPrefixLengthSound(line: string)
    ensures NumberPrefixLength(line) == 0 || IsNumberPrefix(line, NumberPrefixLength(line))
  {
    var k := NumberPrefixLength(line);
    if k > 0 {
      var a := SpaceRun(line, 0);
      var b := a + DigitRun(line, a);
      assert NumberPrefixAt(line, a, b, k);
    }
  }

  /** Every line-number prefix is covered by what the pattern removes: no prefix is missed, and
      the removed one is the longest. */
  lemma NumberPrefixLengthLongest(line: string, j: int)
    requires IsNumberPrefix(line, j)
    ensures 0 < j <= NumberPrefixLength(line)
  {
    var a, b :| 0 <= a < b < j && NumberPrefixAt(line, a, b, j);
    LongestAt(line, a, b, j);
  }

  /** One split of a line-number prefix is covered by what the pattern removes. */
  lemma LongestAt(line: string, a: int, b: int, j: int)
    requires NumberPrefixAt(line, a, b, j)
    ensures j <= NumberPrefixLength(line)
  {
    assert && 0 <= a < b < j <= |line| && SpaceRun(line, 0) == a && DigitRun(line, a) == b - a
           && b + SpaceRun(line, b) >= j && (j - b >= 2 || line[b] == '\t') by {
      PrefixRuns(line, a, b, j);
    }
    LongestFromRuns(line, a, b, j);
  }

  /** The removed length once the three runs are known: a whitespace run reaching `j`, with two
      characters or a tab, is taken whole. */
  lemma LongestFromRuns(line: string, a: nat, b: nat, j: nat)
    requires a < b < j <= |line| && SpaceRun(line, 0) == a && DigitRun(line, a) == b - a
    requires b + SpaceRun(line, b) >= j && (j - b >= 2 || line[b] == '\t')
    ensures j <= NumberPrefixLength(line)
  {
  }

  /** The parts of a line-number prefix are the runs the pattern measures. */
  lemma PrefixRuns(line: string, a: int, b: int, j: int)
    requires NumberPrefixAt(line, a, b, j)
    ensures SpaceRun(line, 0) == a && DigitRun(line, a) == b - a
    ensures b + SpaceRun(line, b) >= j
  {
    DigitNotSpace(line[a]);
    SpaceRunIs(line, 0, a);
    DigitRunCovers(line, a, b);
    DigitNotSpace(line[b]);
    SpaceRunCovers(line, b, j);
  }

  lemma DigitNotSpace(c: char)
    ensures IsDigit(c) ==> !IsSpace(c)
  {
  }

  /** One line as the copy handlers clean it: the line-number prefix, if any, is removed. */
  function StripLine(line: string): (r: string)
    ensures |r| <= |line| && r == line[|line| - |r|..]
  {
    line[NumberPrefixLength(line)..]
  }

  /** `handleCopy` and `copyCodeBlock`: split at line feeds, clean each line, join again. */
  function StripLineNumbers(code: string): string {
    var lines := Split(code, '\n');
    Join(seq(|lines|, i requires 0 <= i < |lines| => StripLine(lines[i])), "\n")
  }

  /** The cleaned text has exactly the original's lines, each one cleaned. */
  lemma StripLineNumbersLines(code: string)
    ensures var lines := Split(code, '\n');
      var cleaned := Split(StripLineNumbers(code), '\n');
      && |cleaned| == |lines|
      && forall i :: 0 <= i < |lines| ==> cleaned[i] == StripLine(lines[i])
  {
    var lines := Split(code, '\n');
    var parts := seq(|lines|, i requires 0 <= i < |lines| => StripLine(lines[i]));
    forall i | 0 <= i < |parts| ensures '\n' !in parts[i] {
      assert parts[i] == lines[i][|lines[i]| - |parts[i]|..];
      assert forall t :: 0 <= t < |parts[i]| ==> parts[i][t] in lines[i];
    }
    SplitJoin(parts, '\n');
  }

  /** A line rendered as indentation, a number, a separator of two or more spaces (or tabs) and
      text that does not start with whitespace gets exactly that text back. */
  lemma StripNumberedLine(indent: string, number: string, gap: string, text: string)
    requires AllSpace(indent) && number != "" && forall i :: 0 <= i < |number| ==> IsDigit(number[i])
    requires AllSpace(gap) && (|gap| >= 2 || gap == "\t")
    requires text == [] || !IsSpace(text[0])
    ensures StripLine(indent + number + gap + text) == text
  {
    var line := indent + number + gap + text;
    var a := |indent|;
    var b := a + |number|;
    var j := b + |gap|;
    assert forall t :: 0 <= t < a ==> line[t] == indent[t];
    assert forall t :: a <= t < b ==> line[t] == number[t - a];
    assert forall t :: b <= t < j ==> line[t] == gap[t - b];
    assert j < |line| ==> line[j] == text[0];
    NumberPrefixExact(line, a, b, j);
    assert line[j..] == text;
  }

  /** A line-number prefix followed by the end of the line or by a non-space character is
      exactly what the pattern removes. */
  lemma NumberPrefixExact(line: string, a: int, b: int, j: int)
    requires NumberPrefixAt(line, a, b, j)
    requires j == |line| || !IsSpace(line[j])
    ensures NumberPrefixLength(line) == j
  {
    PrefixRuns(line, a, b, j);
    if j < |line| {
      SpaceRunIs(line, b, j);
    }
  }

  /** A line that does not start with whitespace and digits followed by a separator is kept. */
  lemma StripLineKeeps(line: string)
    requires forall j :: !IsNumberPrefix(line, j)
    ensures StripLine(line) == line
  {
    NumberPrefixLengthSound(line);
  }

  /* ----- download name ----- */

  /** The file extension of each language name, as the download handler lists them. */
  const LanguageExtensions: map<string, string> := map[
    "javascript" := "js", "python" := "py", "java" := "java", "c" := "c", "cpp" := "cpp",
    "c++" := "cpp", "csharp" := "cs", "c#" := "cs", "php" := "php", "typescript" := "ts",
    "html" := "html", "css" := "css", "json" := "json", "xml" := "xml", "markdown" := "md",
    "text" := "txt", "ruby" := "rb", "go" := "go", "swift" := "swift", "kotlin" := "kt",
    "scala" := "scala", "perl" := "pl", "bash" := "sh", "shell" := "sh", "sql" := "sql"]

  const DownloadStem: string := "code-snippet."

  /** The file name a downloaded block gets, with an own-property lookup of the extension: the
      block's file name when it has one, else "code-snippet." and the language's extension, "txt"
      for a language the table does not list. */
  function DownloadName(fileName: string, lang: string): (r: string)
    ensures fileName != "" ==> r == fileName
    ensures fileName == "" && lang in LanguageExtensions ==> r == DownloadStem + LanguageExtensions[lang]
    ensures fileName == "" && lang !in LanguageExtensions ==> r == DownloadStem + "txt"
  {
    if fileName != "" then fileName
    else
      var ext := match GetOwn(LanguageExtensions, lang)
        case Some(e) => if e != "" then e else "txt"
        case None => "txt";
      DownloadStem + ext
  }

  /** The download name as written. The language it is given is whatever `normalizeLang`
      returned, and the table is a plain object read with that value's string form as key. */
  function DownloadNameAsWritten(fileName: string, lang: JsValue): (r: string)
    ensures lang.Str? && lang.s !in PrototypeNames ==> r == DownloadName(fileName, lang.s)
  {
    if fileName != "" then fileName
    else
      var ext := match Get(LanguageExtensions, ToJsString(lang))
        case Some(v) => if Truthy(v) then ToJsString(v) else "txt"
        case None => "txt";
      DownloadStem + ext
  }

  /** A block fenced as "constructor" keeps that language through the own-property
      `normalizeLang`. */
  lemma NormalizeLangConstructor()
    ensures NormalizeLang("constructor") == "constructor"
  {
    assert ToLower("constructor") == "constructor";
    NormalizeLangCases("constructor");
  }

  /** The inherited lookup of the download table cannot be reached from a fence: whatever
      `normalizeLang` returns as written, the download name is the one the own-property reading
      gives. The two inherited members it can return print as texts the table does not hold. */
  lemma DownloadNameAgreesAsWritten(fileName: string, tag: string)
    ensures DownloadNameAsWritten(fileName, NormalizeLangAsWritten(tag)) == DownloadName(fileName, NormalizeLang(tag))
  {
    var key := ToLower(tag);
    if key in PrototypeNames {
      NormalizeInherited(tag);
      InheritedDownload(fileName, key);
    }
    else {
      NormalizeNotInherited(tag);
    }
  }

  /** A tag that lower-cases to an inherited name: as written it reads that member, which is
      "constructor" or "__proto__"; the own-property reading keeps the lower-cased tag. */
  lemma NormalizeInherited(tag: string)
    requires ToLower(tag) in PrototypeNames
    ensures var key := ToLower(tag);
      && (key == "constructor" || key == "__proto__")
      && NormalizeLangAsWritten(tag) == Inherited(key) && NormalizeLang(tag) == key
  {
    var key := ToLower(tag);
    LowerCasePrototypeNames(key);
    NormalizeLangCases(tag);
  }

  /** Any other tag normalises to the same string both ways, and that string is not inherited. */
  lemma NormalizeNotInherited(tag: string)
    requires ToLower(tag) !in PrototypeNames
    ensures NormalizeLangAsWritten(tag) == Str(NormalizeLang(tag)) && NormalizeLang(tag) !in PrototypeNames
  {
    NormalizeLangCases(tag);
    AliasesNotInherited(ToLower(tag));
  }

  /** The two inherited members print as texts the download table does not hold, so their
      download name falls back to "txt" as the own-property reading's does. */
  lemma InheritedDownload(fileName: string, key: string)
    requires key == "constructor" || key == "__proto__"
    ensures DownloadNameAsWritten(fileName, Inherited(key)) == DownloadName(fileName, key)
  {
    var printed := ToJsString(Inherited(key));
    assert printed == ObjectSource || printed == "[object Object]";
    PrintedNotKeys();
    assert Get(LanguageExtensions, printed).None?;
  }

  /** Neither inherited member, nor the text it prints as, is a key of the download table. */
  lemma PrintedNotKeys()
    ensures ObjectSource !in LanguageExtensions && ObjectSource !in PrototypeNames
    ensures "[object Object]" !in LanguageExtensions && "[object Object]" !in PrototypeNames
    ensures "constructor" !in LanguageExtensions && "__proto__" !in LanguageExtensions
  {
    PrintedNotInherited();
  }

  lemma PrintedNotInherited()
    ensures ObjectSource !in PrototypeNames && "[object Object]" !in PrototypeNames
  {
  }

  /** No alias is the name of an inherited member. */
  lemma AliasesNotInherited(key: string)
    ensures key in LangAliases ==> LangAliases[key] !in PrototypeNames
  {
  }

  /** The only lower-case names a plain object inherits are "constructor" and "__proto__". */
  lemma LowerCasePrototypeNames(key: string)
    requires key in PrototypeNames && IsLowerCase(key)
    ensures key == "constructor" || key == "__proto__"
  {
    CamelCaseNames();
  }

  /** Each of the other inherited names holds a capital letter. */
  lemma CamelCaseNames()
    ensures !IsLowerCase("__defineGetter__") && !IsLowerCase("__defineSetter__")
    ensures !IsLowerCase("__lookupGetter__") && !IsLowerCase("__lookupSetter__")
    ensures !IsLowerCase("hasOwnProperty") && !IsLowerCase("isPrototypeOf")
    ensures !IsLowerCase("propertyIsEnumerable") && !IsLowerCase("toLocaleString")
    ensures !IsLowerCase("toString") && !IsLowerCase("valueOf")
  {
    assert IsUpper("__defineGetter__"[8]) && IsUpper("__defineSetter__"[8]);
    assert IsUpper("__lookupGetter__"[8]) && IsUpper("__lookupSetter__"[8]);
    assert IsUpper("hasOwnProperty"[3]) && IsUpper("isPrototypeOf"[2]);
    assert IsUpper("propertyIsEnumerable"[8]) && IsUpper("toLocaleString"[2]);
    assert IsUpper("toString"[2]) && IsUpper("valueOf"[5]);
  }
}
