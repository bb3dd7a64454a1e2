/** utils/file-utils.ts: the extension tables, the content-probe chain of `detectCodeLanguage`,
    the indentation-only formatter with its `formatCode` dispatch, and `isLikelyCode`. The regular
    expressions of the probes are parameters; what is modelled is the order in which they are
    consulted and the exact fallbacks. */
module FileUtils {
  import opened Strings
  import opened JsObjects
  import opened Wrappers
  import Fence

  /* ----- extensions ----- */

  /** The extensions the drop zone and the file picker accept. */
  const SupportedFileTypes: seq<string> := [
    ".js", ".jsx", ".ts", ".tsx", ".html", ".css", ".scss", ".json", ".md", ".py", ".rb", ".java",
    ".c", ".cpp", ".cs", ".go", ".rs", ".php", ".sql", ".txt", ".csv", ".xml", ".yaml", ".yml",
    ".sh", ".bat", ".ps1", ".env", ".gitignore", ".eslintrc", ".prettierrc", ".babelrc"]

  /** The language `detectLanguage` gives each extension. */
  const ExtensionLanguages: map<string, string> := map[
    ".js" := "javascript", ".jsx" := "jsx", ".ts" := "typescript", ".tsx" := "tsx",
    ".html" := "html", ".css" := "css", ".scss" := "scss", ".json" := "json", ".md" := "markdown",
    ".py" := "python", ".rb" := "ruby", ".java" := "java", ".c" := "c", ".cpp" := "cpp",
    ".cs" := "csharp", ".go" := "go", ".rs" := "rust", ".php" := "php", ".sql" := "sql",
    ".sh" := "bash", ".bat" := "batch", ".ps1" := "powershell", ".yaml" := "yaml",
    ".yml" := "yaml", ".xml" := "xml", ".env" := "ini", ".gitignore" := "plaintext",
    ".eslintrc" := "json", ".prettierrc" := "json", ".babelrc" := "json"]

  /** `name.slice(name.lastIndexOf(".")).toLowerCase()`: from the last dot on, lower-cased. A
      name without a dot gives `slice(-1)`, its last character. */
  function FileExtension(name: string): (ext: string)
    ensures '.' in name ==> |ext| >= 1 && ext[0] == '.'
    ensures '.' !in name ==> |ext| <= 1
  {
    ToLower(JsSlice(name, LastIndexOf(name, '.')))
  }

  /** Every table key and every listed extension is a dot and at least one more character. */
  lemma ExtensionsAreLong(ext: string)
    requires ext in ExtensionLanguages || ext in SupportedFileTypes
    ensures |ext| >= 2 && ext[0] == '.'
  {
    if ext in ExtensionLanguages {
      TableKeysAreLong(ext);
    }
    else {
      ListedExtensionsAreLong(ext);
    }
  }

  lemma TableKeysAreLong(ext: string)
    requires ext in ExtensionLanguages
    ensures |ext| >= 2 && ext[0] == '.'
  {
  }

  lemma ListedExtensionsAreLong(ext: string)
    requires ext in SupportedFileTypes
    ensures |ext| >= 2 && ext[0] == '.'
  {
  }

  /** An extension is never the name of an inherited `Object.prototype` member: it starts with a
      dot or has at most one character. */
  lemma ExtensionNotInherited(name: string)
    ensures FileExtension(name) !in PrototypeNames
  {
    var ext := FileExtension(name);
    if ext in PrototypeNames {
      PrototypeNamesShape(ext);
    }
  }

  /** The inherited member names are long and start with a letter or an underscore. */
  lemma PrototypeNamesShape(n: string)
    requires n in PrototypeNames
    ensures |n| >= 2 && n[0] != '.'
  {
  }

  /** `detectLanguage` as written, with a plain-object lookup: the table's language for the
      extension, "plaintext" otherwise. The lookup never reaches an inherited member. */
  function DetectLanguage(name: string): (r: string)
    ensures FileExtension(name) in ExtensionLanguages ==> r == ExtensionLanguages[FileExtension(name)]
    ensures FileExtension(name) !in ExtensionLanguages ==> r == "plaintext"
  {
    ExtensionNotInherited(name);
    TableLanguagesNonEmpty(FileExtension(name));
    match Get(ExtensionLanguages, FileExtension(name))
    case Some(v) => if Truthy(v) then ToJsString(v) else "plaintext"
    case None => "plaintext"
  }

  /** The table gives every extension it knows a non-empty language. */
  lemma TableLanguagesNonEmpty(ext: string)
    ensures ext in ExtensionLanguages ==> ExtensionLanguages[ext] != ""
  {
  }

  /** Every language `detectLanguage` can answer. */
  const FileLanguages: set<string> := {
    "javascript", "jsx", "typescript", "tsx", "html", "css", "scss", "json", "markdown", "python",
    "ruby", "java", "c", "cpp", "csharp", "go", "rust", "php", "sql", "bash", "batch", "powershell",
    "yaml", "xml", "ini", "plaintext"}

  /** The detected language is one of the listed ones. */
  lemma DetectLanguageListed(name: string)
    ensures DetectLanguage(name) in FileLanguages
  {
  }

  /** The detected languages are words, so they can follow a fence's backticks. */
  lemma FileLanguagesAreWords(lang: string)
    requires lang in FileLanguages
    ensures Fence.IsWord(lang)
  {
  }

  /** `isSupportedFile`: the same extension, looked up in the accepted list. */
  predicate IsSupportedFile(name: string) {
    FileExtension(name) in SupportedFileTypes
  }

  /** A name without a dot is neither detected nor supported. */
  lemma DotlessName(name: string)
    requires '.' !in name
    ensures DetectLanguage(name) == "plaintext" && !IsSupportedFile(name)
  {
    var ext := FileExtension(name);
    if ext in ExtensionLanguages {
      ExtensionsAreLong(ext);
    }
    if ext in SupportedFileTypes {
      ExtensionsAreLong(ext);
    }
  }

  /** Every extension the language table knows is accepted by the file filter. */
  lemma TableExtensionsSupported(ext: string)
    requires ext in ExtensionLanguages
    ensures ext in SupportedFileTypes
  {
  }

  /** Accepted extensions the table does not know, ".txt" and ".csv", fall back to "plaintext". */
  lemma TextFilesSupported()
    ensures ".txt" in SupportedFileTypes && ".txt" !in ExtensionLanguages
  {
    assert SupportedFileTypes[19] == ".txt";
  }

  lemma CsvFilesSupported()
    ensures ".csv" in SupportedFileTypes && ".csv" !in ExtensionLanguages
  {
    assert SupportedFileTypes[20] == ".csv";
  }

  /** A Rust file is detected by its extension. */
  lemma DetectLanguageRust()
    ensures DetectLanguage("foo.rs") == "rust"
  {
    assert "foo.rs"[4..] == "rs";
    LastIndexOfAt("foo.rs", '.', 3);
    assert JsSlice("foo.rs", 3) == ".rs";
    ToLowerOfLower(".rs");
    assert ExtensionLanguages[".rs"] == "rust";
  }

  /** The lower-casing makes the lookup case-insensitive. */
  lemma DetectLanguageUpperCase()
    ensures DetectLanguage("MAIN.PY") == "python"
  {
    assert "MAIN.PY"[5..] == "PY";
    LastIndexOfAt("MAIN.PY", '.', 4);
    assert JsSlice("MAIN.PY", 4) == ".PY";
    assert ToLower(".PY") == ".py" by {
      assert ToLowerChar('P') == 'p' && ToLowerChar('Y') == 'y';
    }
    assert ExtensionLanguages[".py"] == "python";
  }

  /* ----- detectCodeLanguage ----- */

  /** The regular-expression probes of `detectCodeLanguage`, in the order they are consulted. The
      SQL probe includes the upper-casing of the code; `parsesAsJson` stands for `JSON.parse`
      succeeding. */
  datatype CodeProbes = CodeProbes(
    jsx: string -> bool,
    moduleSyntax: string -> bool,
    typeSyntax: string -> bool,
    htmlTag: string -> bool,
    cssRule: string -> bool,
    python: string -> bool,
    java: string -> bool,
    sqlKeyword: string -> bool,
    goSyntax: string -> bool,
    rust: string -> bool,
    cpp: string -> bool,
    php: string -> bool,
    shebang: string -> bool,
    jsFunction: string -> bool,
    parsesAsJson: string -> bool)

  /** Every language the content probes can answer. */
  const CodeLanguages: set<string> := {
    "jsx", "typescript", "javascript", "html", "css", "python", "java", "sql", "go", "rust", "cpp",
    "php", "bash", "json", "plaintext"}

  /** The content-detected languages are non-empty words too. */
  lemma CodeLanguagesAreWords(lang: string)
    requires lang in CodeLanguages
    ensures Fence.IsWord(lang) && lang != ""
  {
  }

  /** The first fallback: a brace somewhere, and the last line of the trimmed code ends in ";". */
  predicate BraceAndSemicolon(code: string) {
    var lines := Split(Trim(code), '\n');
    var last := lines[|lines| - 1];
    ('{' in code || '}' in code) && last != [] && last[|last| - 1] == ';'
  }

  /** The second fallback: the first non-whitespace character is "#". */
  predicate HashComment(code: string) {
    var t := TrimStart(code);
    t != [] && t[0] == '#'
  }

  /** Some probe or fallback fires on `code`. */
  predicate AnyProbe(p: CodeProbes, code: string) {
    || p.jsx(code) || p.moduleSyntax(code) || p.htmlTag(code) || p.cssRule(code) || p.python(code)
    || p.java(code) || p.sqlKeyword(code) || p.goSyntax(code) || p.rust(code) || p.cpp(code)
    || p.php(code) || p.shebang(code) || p.jsFunction(code) || p.parsesAsJson(code)
    || BraceAndSemicolon(code) || HashComment(code)
  }

  /** `detectCodeLanguage`: the first probe that fires decides. Nothing in the chain can throw on
      a string, so the `catch` is not modelled. */
  function DetectCodeLanguage(p: CodeProbes, code: string): (r: string)
    ensures r in CodeLanguages
    ensures r == "plaintext" <==> !AnyProbe(p, code)
    ensures p.jsx(code) ==> r == "jsx"
    ensures !p.jsx(code) && p.moduleSyntax(code) ==>
      r == (if p.typeSyntax(code) then "typescript" else "javascript")
  {
    if p.jsx(code) then "jsx"
    else if p.moduleSyntax(code) then (if p.typeSyntax(code) then "typescript" else "javascript")
    else if p.htmlTag(code) then "html"
    else if p.cssRule(code) then "css"
    else if p.python(code) then "python"
    else if p.java(code) then "java"
    else if p.sqlKeyword(code) then "sql"
    else if p.goSyntax(code) then "go"
    else if p.rust(code) then "rust"
    else if p.cpp(code) then "cpp"
    else if p.php(code) then "php"
    else if p.shebang(code) then "bash"
    else if p.jsFunction(code) then "javascript"
    else if p.parsesAsJson(code) then "json"
    else if BraceAndSemicolon(code) then "javascript"
    else if HashComment(code) then "python"
    else "plaintext"
  }

  /* ----- formatIndentation ----- */

  /** A trimmed line that the dedent patterns match: it starts with a closing bracket. */
  predicate IsCloser(t: string) {
    t != [] && (t[0] == '}' || t[0] == ']' || t[0] == ')')
  }

  /** A trimmed line that the indent patterns match: it ends with ":" or an opening bracket. */
  predicate IsOpener(t: string) {
    t != [] && (t[|t| - 1] == ':' || t[|t| - 1] == '{' || t[|t| - 1] == '[' || t[|t| - 1] == '(')
  }

  /** The level a line is printed at, given the level before it. */
  function LineLevel(t: string, level: nat): nat {
    if IsCloser(t) then (if level > 0 then level - 1 else 0) else level
  }

  /** The level after a line printed at `printed`. */
  function NextLevel(t: string, printed: nat): nat {
    if IsOpener(t) then printed + 1 else printed
  }

  /** The re-indented lines from the level `level` on: each line trimmed and prefixed with two
      spaces per level. */
  function Indented(lines: seq<string>, level: nat): (out: seq<string>)
    ensures |out| == |lines|
    decreases |lines|
  {
    if lines == [] then []
    else
      var t := Trim(lines[0]);
      var k := LineLevel(t, level);
      [Spaces(2 * k) + t] + Indented(lines[1..], NextLevel(t, k))
  }

  /** The formatter's result as a function of the code. */
  function Formatted(code: string): string {
    Join(Indented(Split(code, '\n'), 0), "\n")
  }

  /** `formatIndentation`: the loop over the lines with its running indent. */
  method FormatIndentation(code: string) returns (r: string)
    ensures r == Formatted(code)
  {
    var lines := Split(code, '\n');
    var out: seq<string> := [];
    var indent: nat := 0;
    var i := 0;
    while i < |lines|
      invariant 0 <= i <= |lines|
      invariant out + Indented(lines[i..], indent) == Indented(lines, 0)
    {
      var line := Trim(lines[i]);
      IndentedCons(lines, i, indent, out);
      indent := LineLevel(line, indent);
      out := out + [Spaces(2 * indent) + line];
      indent := NextLevel(line, indent);
      i := i + 1;
    }
    assert lines[i..] == [];
    assert out == Indented(lines, 0);
    r := Join(out, "\n");
  }

  /** Unrolling the re-indentation at line `i`. */
  lemma IndentedCons(lines: seq<string>, i: nat, level: nat, out: seq<string>)
    requires i < |lines|
    ensures var t := Trim(lines[i]);
      var k := LineLevel(t, level);
      out + Indented(lines[i..], level) == (out + [Spaces(2 * k) + t]) + Indented(lines[i + 1..], NextLevel(t, k))
  {
    assert lines[i..][1..] == lines[i + 1..];
  }

  /** Each output line is some number of indentation pairs followed by the trimmed input line. */
  lemma {:induction false} IndentedShape(lines: seq<string>, level: nat, i: nat)
    requires i < |lines|
    ensures exists k: nat :: Indented(lines, level)[i] == Spaces(2 * k) + Trim(lines[i])
    decreases i
  {
    var t := Trim(lines[0]);
    var k := LineLevel(t, level);
    IndentedUnfold(lines, level, t, k, NextLevel(t, k));
    if i > 0 {
      IndentedShape(lines[1..], NextLevel(t, k), i - 1);
      assert Indented(lines, level)[i] == Indented(lines[1..], NextLevel(t, k))[i - 1];
    }
  }

  /** A closing line is printed one level below the running level (never below 0), and an
      opening line raises the level of the lines after it. */
  lemma IndentedStep(lines: seq<string>, level: nat)
    requires lines != []
    ensures var t := Trim(lines[0]);
      var k := LineLevel(t, level);
      && k == (if IsCloser(t) then (if level > 0 then level - 1 else 0) else level)
      && Indented(lines, level)[0] == Spaces(2 * k) + t
      && NextLevel(t, k) == (if IsOpener(t) then k + 1 else k)
      && Indented(lines, level)[1..] == Indented(lines[1..], NextLevel(t, k))
  {
    var t := Trim(lines[0]);
    IndentedUnfold(lines, level, t, LineLevel(t, level), NextLevel(t, LineLevel(t, level)));
  }

  /** One unfolding of the re-indentation, with the head line's trimmed text and levels named. */
  lemma IndentedUnfold(lines: seq<string>, level: nat, t: string, k: nat, n: nat)
    requires lines != [] && t == Trim(lines[0]) && k == LineLevel(t, level) && n == NextLevel(t, k)
    ensures Indented(lines, level)[0] == Spaces(2 * k) + t
    ensures Indented(lines, level)[1..] == Indented(lines[1..], n)
  {
    var head := Spaces(2 * k) + t;
    var rest := Indented(lines[1..], n);
    assert Indented(lines, level) == [head] + rest;
    assert ([head] + rest)[1..] == rest;
  }

  /** No output line holds a line feed. */
  lemma {:induction false} IndentedNoNewline(lines: seq<string>, level: nat)
    requires forall i :: 0 <= i < |lines| ==> '\n' !in lines[i]
    ensures forall i :: 0 <= i < |lines| ==> '\n' !in Indented(lines, level)[i]
    decreases |lines|
  {
    if lines != [] {
      var t := Trim(lines[0]);
      var k := LineLevel(t, level);
      var out := Indented(lines, level);
      var rest := Indented(lines[1..], NextLevel(t, k));
      IndentedUnfold(lines, level, t, k, NextLevel(t, k));
      assert '\n' !in out[0] by {
        PaddedNoNewline(lines[0], k);
      }
      assert forall j :: 0 <= j < |lines| - 1 ==> lines[1..][j] == lines[j + 1];
      IndentedNoNewline(lines[1..], NextLevel(t, k));
      forall i | 1 <= i < |lines| ensures '\n' !in out[i] {
        assert out[i] == rest[i - 1];
      }
    }
  }

  /** A trimmed line without a line feed, indented, still has none. */
  lemma PaddedNoNewline(line: string, k: nat)
    requires '\n' !in line
    ensures '\n' !in Spaces(2 * k) + Trim(line)
  {
    TrimKeepsOut(line, '\n');
    SpacesKeepOut(2 * k, '\n');
    ConcatKeepsOut(Spaces(2 * k), Trim(line), '\n');
  }

  /** The formatted code has as many lines as the input, each the trimmed input line indented. */
  lemma FormattedLines(code: string)
    ensures var lines := Split(code, '\n');
      var out := Split(Formatted(code), '\n');
      && |out| == |lines|
      && forall i :: 0 <= i < |lines| ==> exists k: nat :: out[i] == Spaces(2 * k) + Trim(lines[i])
  {
    var lines := Split(code, '\n');
    IndentedNoNewline(lines, 0);
    SplitJoin(Indented(lines, 0), '\n');
    forall i | 0 <= i < |lines|
      ensures exists k: nat :: Indented(lines, 0)[i] == Spaces(2 * k) + Trim(lines[i])
    {
      IndentedShape(lines, 0, i);
    }
  }

  /** Re-indenting indented lines changes nothing. */
  lemma {:induction false} IndentedIdempotent(lines: seq<string>, level: nat)
    ensures Indented(Indented(lines, level), level) == Indented(lines, level)
    decreases |lines|
  {
    if lines != [] {
      var t := Trim(lines[0]);
      var k := LineLevel(t, level);
      var n := NextLevel(t, k);
      var out := Indented(lines, level);
      IndentedUnfold(lines, level, t, k, n);
      assert Trim(out[0]) == t by {
        TrimTrimmed(t);
        PaddedTrim(k, t);
      }
      IndentedUnfold(out, level, t, k, n);
      IndentedIdempotent(lines[1..], n);
      assert out[1..] == Indented(lines[1..], n);
      var again := Indented(out, level);
      assert again[0] == out[0];
      assert again[1..] == out[1..];
      assert again == [again[0]] + again[1..];
      assert out == [out[0]] + out[1..];
    }
  }

  /** Trimming an indented trimmed line gives the line back. */
  lemma PaddedTrim(k: nat, t: string)
    requires t == Trim(t)
    ensures Trim(Spaces(2 * k) + t) == t
  {
    TrimPadded(Spaces(2 * k), t, "");
    assert Spaces(2 * k) + t + "" == Spaces(2 * k) + t;
  }

  /** Formatting formatted code changes nothing. */
  lemma FormattedIdempotent(code: string)
    ensures Formatted(Formatted(code)) == Formatted(code)
  {
    var lines := Split(code, '\n');
    IndentedNoNewline(lines, 0);
    SplitJoin(Indented(lines, 0), '\n');
    IndentedIdempotent(lines, 0);
  }

  /* ----- formatCode ----- */

  /** The parser the pretty-printer is given for each language. */
  const ParserMap: map<string, string> := map[
    "javascript" := "babel", "jsx" := "babel", "typescript" := "typescript", "tsx" := "typescript",
    "html" := "html", "css" := "css", "scss" := "scss", "json" := "json", "markdown" := "markdown"]

  /** What the pretty-printer does with a text and a parser name. */
  datatype Printed = Printed(text: string) | Threw

  /** `formatCode`: languages with a parser go to the pretty-printer, which is a parameter here;
      every other language, the empty one included, and every printer failure fall back to the
      indentation formatter. */
  function FormatCode(code: string, language: string, pretty: (string, string) -> Printed): string
  {
    var lang := if language == "" then "plaintext" else language;
    match GetOwn(ParserMap, lang)
    case None => Formatted(code)
    case Some(parser) =>
      match pretty(code, parser)
      case Printed(text) => text
      case Threw => Formatted(code)
  }

  /** The callers pass a language the detector returns, and for those the plain-object read of
      the parser table finds exactly the own entries, so the own-property lookup of `FormatCode`
      is the source's. */
  lemma ParserLookupOwn(lang: string)
    requires lang in CodeLanguages
    ensures lang in ParserMap ==> Get(ParserMap, lang) == Some(Str(ParserMap[lang]))
    ensures lang !in ParserMap ==> Get(ParserMap, lang) == None
  {
    assert lang !in PrototypeNames;
  }

  /** The three outcomes of `formatCode`: no parser, a printer failure, a printed text. */
  lemma FormatCodeCases(code: string, language: string, pretty: (string, string) -> Printed)
    ensures var lang := if language == "" then "plaintext" else language;
      && (lang !in ParserMap ==> FormatCode(code, language, pretty) == Formatted(code))
      && (lang in ParserMap && pretty(code, ParserMap[lang]).Threw? ==> FormatCode(code, language, pretty) == Formatted(code))
      && (lang in ParserMap && pretty(code, ParserMap[lang]).Printed? ==>
            FormatCode(code, language, pretty) == pretty(code, ParserMap[lang]).text)
  {
  }

  /** The empty language formats like "plaintext": without the pretty-printer. */
  lemma FormatCodeEmptyLanguage(code: string, pretty: (string, string) -> Printed)
    ensures FormatCode(code, "", pretty) == Formatted(code)
  {
    assert "plaintext" !in ParserMap;
  }

  /* ----- isLikelyCode ----- */

  /** Characters after which a multiline `^` matches. */
  predicate IsLineTerminator(c: char) {
    c == '\n' || c == '\r' || c == '\U{2028}' || c == '\U{2029}'
  }

  /** `/[{};]/`. */
  predicate HasBraceOrSemicolon(text: string) {
    '{' in text || '}' in text || ';' in text
  }

  /** `/^( {2,}|\t+)/m`: some line starts with two spaces or a tab. */
  predicate HasIndentedLine(text: string) {
    exists k | 0 <= k < |text| ::
      && (k == 0 || IsLineTerminator(text[k - 1]))
      && (text[k] == '\t' || (k + 1 < |text| && text[k] == ' ' && text[k + 1] == ' '))
  }

  /** `isLikelyCode`, with the keyword patterns as a parameter: keywords count when the text also
      has a brace, an indented line or a line feed; without keywords it takes an indented line
      and a brace or semicolon. */
  function IsLikelyCode(text: string, keywords: string -> bool): (r: bool)
    ensures HasIndentedLine(text) && HasBraceOrSemicolon(text) ==> r
    ensures !HasIndentedLine(text) && !HasBraceOrSemicolon(text) && '\n' !in text ==> !r
    ensures keywords(text) ==> (r <==> HasBraceOrSemicolon(text) || HasIndentedLine(text) || '\n' in text)
    ensures !keywords(text) ==> (r <==> HasIndentedLine(text) && HasBraceOrSemicolon(text))
  {
    var hasP := keywords(text);
    var hasB := HasBraceOrSemicolon(text);
    var hasI := HasIndentedLine(text);
    var multi := '\n' in text;
    (hasP && (hasB || hasI || multi)) || (hasI && hasB)
  }
}
