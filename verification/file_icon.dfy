/** components/chat/file-attachment.tsx: the icon shown next to an attached file, picked from the
    text after the name's last dot. */
module FileIcon {
  import opened Strings
  import FileUtils

  datatype Icon = CodeIcon | JsonIcon | TextIcon | GenericIcon

  const CodeExtensions: seq<string> :=
    ["js", "jsx", "ts", "tsx", "py", "java", "c", "cpp", "cs", "go", "rb", "php", "rs"]
  const DataExtensions: seq<string> := ["json", "xml", "yaml", "yml"]
  const TextExtensions: seq<string> := ["txt", "md", "csv", "log"]

  /** `fileName.split(".").pop()?.toLowerCase()`: the last piece of the split, lower-cased. The
      split always has a piece, so the `|| ""` fallback is never taken. */
  function IconExtension(name: string): string {
    var parts := Split(name, '.');
    ToLower(parts[|parts| - 1])
  }

  /** `getFileIcon`: the first list holding the extension decides; no list, the generic icon. */
  function IconFor(name: string): (r: Icon)
    ensures r == CodeIcon <==> IconExtension(name) in CodeExtensions
    ensures r == JsonIcon <==> IconExtension(name) in DataExtensions
    ensures r == TextIcon <==> IconExtension(name) in TextExtensions
  {
    var ext := IconExtension(name);
    if ext in CodeExtensions then CodeIcon
    else if ext in DataExtensions then JsonIcon
    else if ext in TextExtensions then TextIcon
    else GenericIcon
  }

  /** The three lists share no extension, so their order does not matter. */
  lemma ListsDisjoint(e: string)
    ensures !(e in CodeExtensions && e in DataExtensions)
    ensures !(e in CodeExtensions && e in TextExtensions)
    ensures !(e in DataExtensions && e in TextExtensions)
  {
  }

  /** The last of `parts` ends `s`, and a separator `c` comes right before it unless it is the
      whole of `s`, which is when there is one piece. */
  ghost predicate LastPieceOf(s: string, c: char, parts: seq<string>)
    requires |parts| >= 1
  {
    var last := parts[|parts| - 1];
    && |last| <= |s| && s[|s| - |last|..] == last
    && (|parts| == 1 ==> last == s)
    && (|parts| > 1 ==> |last| < |s| && s[|s| - |last| - 1] == c)
  }

  /** The last piece of a split is the text after the last separator: it ends the text, and a
      separator comes right before it unless it is the whole text, which is when the split has
      one piece. Its being separator-free is the split's own contract. */
  lemma {:induction false} SplitLast(s: string, c: char)
    ensures LastPieceOf(s, c, Split(s, c))
    decreases |s|
  {
    if |s| > 0 {
      var rest := Split(s[1..], c);
      SplitLast(s[1..], c);
      if s[0] == c {
        LastPieceAfterSeparator(s, c, rest);
      }
      else {
        LastPieceExtended(s, c, rest);
      }
    }
    else {
      assert Split(s, c) == [""];
    }
  }

  /** A split of a text that starts with the separator: an empty piece, then the tail's pieces. */
  lemma LastPieceAfterSeparator(s: string, c: char, rest: seq<string>)
    requires |s| > 0 && s[0] == c && |rest| >= 1 && LastPieceOf(s[1..], c, rest)
    ensures LastPieceOf(s, c, [""] + rest)
  {
    var lr := rest[|rest| - 1];
    assert ([""] + rest)[|rest|] == lr;
    SuffixOfTail(s, lr);
  }

  /** A split of a text that starts with another character: that character joins the tail's
      first piece. */
  lemma LastPieceExtended(s: string, c: char, rest: seq<string>)
    requires |s| > 0 && |rest| >= 1 && LastPieceOf(s[1..], c, rest)
    ensures LastPieceOf(s, c, [[s[0]] + rest[0]] + rest[1..])
  {
    var parts := [[s[0]] + rest[0]] + rest[1..];
    if |rest| == 1 {
      assert parts[0] == [s[0]] + s[1..] == s;
    }
    else {
      var lr := rest[|rest| - 1];
      assert parts[|parts| - 1] == lr;
      SuffixOfTail(s, lr);
    }
  }

  /** A suffix of the tail is a suffix of the text, preceded by the same character when it is a
      proper one. */
  lemma SuffixOfTail(s: string, u: string)
    requires |s| > 0 && |u| <= |s| - 1 && s[1..][|s| - 1 - |u|..] == u
    ensures s[|s| - |u|..] == u
    ensures |u| < |s| - 1 ==> s[|s| - |u| - 1] == s[1..][|s| - 1 - |u| - 1]
    ensures |u| == |s| - 1 ==> s[|s| - |u| - 1] == s[0]
  {
    assert s[1..][|s| - 1 - |u|..] == s[|s| - |u|..];
  }

  /** Reference reading: the text after the last dot, or the whole name when it has none. */
  function AfterLastDot(name: string): string {
    var k := LastIndexOf(name, '.');
    name[k + 1..]
  }

  /** The icon's extension is the lower-cased text after the last dot, or the whole name. */
  lemma IconExtensionAfterLastDot(name: string)
    ensures IconExtension(name) == ToLower(AfterLastDot(name))
  {
    var parts := Split(name, '.');
    var last := parts[|parts| - 1];
    assert IconExtension(name) == ToLower(last);
    assert AfterLastDot(name) == last by {
      SplitLast(name, '.');
      AfterLastSeparator(name, '.', last, |parts| > 1);
    }
  }

  /** A separator-free suffix that is the whole text, or follows a separator, is what comes after
      the text's last separator. */
  lemma AfterLastSeparator(s: string, c: char, last: string, many: bool)
    requires c !in last && |last| <= |s| && s[|s| - |last|..] == last
    requires !many ==> last == s
    requires many ==> |last| < |s| && s[|s| - |last| - 1] == c
    ensures s[LastIndexOf(s, c) + 1..] == last
  {
    if many {
      var j := |s| - |last| - 1;
      assert s[j + 1..] == last;
      LastIndexOfAt(s, c, j);
    }
    else {
      assert s[0..] == s;
    }
  }

  /** A name with no dot is its own extension. */
  lemma DotlessIconExtension(name: string)
    requires '.' !in name
    ensures IconExtension(name) == ToLower(name)
  {
    IconExtensionAfterLastDot(name);
    assert name[0..] == name;
  }

  /** A dotless name that is itself a listed extension gets that extension's icon. */
  lemma DotlessListedName()
    ensures IconFor("md") == TextIcon
  {
    DotlessIconExtension("md");
    ToLowerOfLower("md");
    assert "md" == TextExtensions[1];
  }

  /** The name is lower-cased before the lists are consulted. */
  lemma UpperCaseListedName()
    ensures IconFor("JSON") == JsonIcon
  {
    DotlessIconExtension("JSON");
    assert ToLower("JSON") == "json" == DataExtensions[0];
  }

  /** For a name with a dot, the icon's extension is the language detector's extension without
      its dot. */
  lemma AgreesWithDetector(name: string)
    requires '.' in name
    ensures FileUtils.FileExtension(name) == "." + IconExtension(name)
  {
    IconExtensionAfterLastDot(name);
    var k := LastIndexOf(name, '.');
    assert name[k..] == "." + name[k + 1..];
    assert JsSlice(name, k) == name[k..];
  }
}
