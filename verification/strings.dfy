/** Text helpers shared by every module: JavaScript's whitespace set and `trim`,
    ASCII case mapping, substring tests, `split`/`join` on one separator character,
    `lastIndexOf`, and the UTF-16 length that JavaScript reports as `.length`. */
module Strings {

  /** The code points JavaScript's `trim` removes and the regex class `\s` matches:
      the WhiteSpace and LineTerminator productions of ECMA-262. */
  predicate IsSpace(c: char) {
    || c == '\t' || c == '\n' || c == '\U{000B}' || c == '\U{000C}' || c == '\r' || c == ' '
    || c == '\U{00A0}' || c == '\U{1680}' || ('\U{2000}' <= c <= '\U{200A}')
    || c == '\U{2028}' || c == '\U{2029}' || c == '\U{202F}' || c == '\U{205F}'
    || c == '\U{3000}' || c == '\U{FEFF}'
  }

  predicate AllSpace(s: string) {
    forall i :: 0 <= i < |s| ==> IsSpace(s[i])
  }

  /** A string `trim` leaves unchanged: it neither starts nor ends with whitespace. */
  predicate IsTrimmed(s: string) {
    s == [] || (!IsSpace(s[0]) && !IsSpace(s[|s| - 1]))
  }

  function TrimStart(s: string): (r: string)
    ensures |r| <= |s| && r == s[|s| - |r|..]
    ensures AllSpace(s[..|s| - |r|])
    ensures r == [] || !IsSpace(r[0])
  {
    if |s| > 0 && IsSpace(s[0]) then
      var r := TrimStart(s[1..]);
      assert s[1..][..|s| - 1 - |r|] == s[1..|s| - |r|];
      r
    else s
  }

  function TrimEnd(s: string): (r: string)
    ensures |r| <= |s| && r == s[..|r|]
    ensures AllSpace(s[|r|..])
    ensures r == [] || !IsSpace(r[|r| - 1])
  {
    if |s| > 0 && IsSpace(s[|s| - 1]) then
      var r := TrimEnd(s[..|s| - 1]);
      assert s[|r|..] == s[..|s| - 1][|r|..] + [s[|s| - 1]];
      r
    else s
  }

  /** JavaScript's `String.prototype.trim`. */
  function Trim(s: string): (r: string)
    ensures IsTrimmed(r)
    ensures |r| <= |s|
    ensures r == [] <==> AllSpace(s)
  {
    var e := TrimEnd(s);
    var r := TrimStart(e);
    assert r == [] ==> AllSpace(s) by {
      if r == [] {
        assert e[..|e|] == e;
        AllSpaceConcat(e, s[|e|..]);
        assert s == e + s[|e|..];
      }
    }
    r
  }

  lemma AllSpaceConcat(a: string, b: string)
    requires AllSpace(a) && AllSpace(b)
    ensures AllSpace(a + b)
  {
    forall i | 0 <= i < |a + b| ensures IsSpace((a + b)[i]) {
      if i < |a| {
        assert (a + b)[i] == a[i];
      } else {
        assert (a + b)[i] == b[i - |a|];
      }
    }
  }

  /** Trim returns a contiguous piece of its argument. */
  lemma TrimIsInfix(s: string) returns (k: nat)
    ensures k + |Trim(s)| <= |s| && Trim(s) == s[k..k + |Trim(s)|]
  {
    var e := TrimEnd(s);
    k := |e| - |Trim(s)|;
    assert e == s[..|e|];
  }

  /** A character absent from a string is absent from its trimmed form. */
  lemma TrimKeepsOut(s: string, c: char)
    requires c !in s
    ensures c !in Trim(s)
  {
    var k := TrimIsInfix(s);
    var t := Trim(s);
    forall i | 0 <= i < |t| ensures t[i] != c {
      assert t[i] == s[k + i];
    }
  }

  /** A character absent from two strings is absent from their concatenation. */
  lemma ConcatKeepsOut(a: string, b: string, c: char)
    requires c !in a && c !in b
    ensures c !in a + b
  {
    forall i | 0 <= i < |a + b| ensures (a + b)[i] != c {
      if i < |a| {
        assert (a + b)[i] == a[i];
      } else {
        assert (a + b)[i] == b[i - |a|];
      }
    }
  }

  /** Padding holds nothing but spaces. */
  lemma SpacesKeepOut(n: nat, c: char)
    requires c != ' '
    ensures c !in Spaces(n)
  {
    var p := Spaces(n);
    forall i | 0 <= i < n ensures p[i] != c {
    }
  }

  /** A line feed at the end is trimmed away. */
  lemma TrimNewline(s: string)
    ensures Trim(s + "\n") == Trim(s)
  {
    assert AllSpace("\n");
    TrimEndPadded(s, "\n");
    assert Trim(s + "\n") == TrimStart(TrimEnd(s + "\n"));
  }

  /** Trimming a trimmed string changes nothing. */
  lemma TrimTrimmed(s: string)
    requires IsTrimmed(s)
    ensures Trim(s) == s
  {
  }

  /** Trim ignores whitespace added on either side. */
  lemma TrimPadded(pre: string, s: string, post: string)
    requires AllSpace(pre) && AllSpace(post)
    ensures Trim(pre + s + post) == Trim(s)
  {
    TrimEndPadded(pre + s, post);
    TrimEndPadded(s, post);
    TrimStartPadded(pre, TrimEnd(s));
    assert TrimEnd(pre + s) == pre + TrimEnd(s) || AllSpace(pre + s) by {
      TrimEndPrefix(pre, s);
    }
    if AllSpace(pre + s) {
      assert AllSpace(s) by {
        forall i | 0 <= i < |s| ensures IsSpace(s[i]) {
          assert s[i] == (pre + s)[|pre| + i];
        }
      }
    }
  }

  lemma TrimEndPadded(s: string, post: string)
    requires AllSpace(post)
    ensures TrimEnd(s + post) == TrimEnd(s)
    decreases |post|
  {
    if |post| > 0 {
      assert (s + post)[..|s + post| - 1] == s + post[..|post| - 1];
      TrimEndPadded(s, post[..|post| - 1]);
    }
    else {
      assert s + post == s;
    }
  }

  lemma TrimStartPadded(pre: string, s: string)
    requires AllSpace(pre)
    ensures TrimStart(pre + s) == TrimStart(s)
    decreases |pre|
  {
    if |pre| > 0 {
      assert (pre + s)[1..] == pre[1..] + s;
      TrimStartPadded(pre[1..], s);
    }
    else {
      assert pre + s == s;
    }
  }

  /** A leading run of spaces survives TrimEnd unless the whole string is blank. */
  lemma TrimEndPrefix(pre: string, s: string)
    requires AllSpace(pre)
    ensures TrimEnd(pre + s) == pre + TrimEnd(s) || AllSpace(pre + s)
    decreases |s|
  {
    if |s| > 0 && IsSpace(s[|s| - 1]) {
      var init, last := s[..|s| - 1], s[|s| - 1];
      assert pre + s == (pre + init) + [last];
      assert (pre + s)[..|pre + s| - 1] == pre + init;
      assert TrimEnd(pre + s) == TrimEnd(pre + init);
      assert TrimEnd(s) == TrimEnd(init);
      TrimEndPrefix(pre, init);
      if AllSpace(pre + init) {
        AllSpaceConcat(pre + init, [last]);
      }
    }
    else if |s| == 0 {
      assert pre + s == pre;
    }
  }

  /* ----- ASCII case mapping ----- */

  predicate IsUpper(c: char) { 'A' <= c <= 'Z' }

  function ToLowerChar(c: char): (r: char)
    ensures !IsUpper(r)
    ensures IsUpper(c) ==> r as int == c as int + 32
    ensures !IsUpper(c) ==> r == c
  {
    if IsUpper(c) then (c as int + 32) as char else c
  }

  function ToUpperChar(c: char): (r: char)
    ensures !('a' <= r <= 'z')
    ensures 'a' <= c <= 'z' ==> r as int == c as int - 32
  {
    if 'a' <= c <= 'z' then (c as int - 32) as char else c
  }

  /** A string holding no upper-case ASCII letter. */
  predicate IsLowerCase(s: string) {
    forall i :: 0 <= i < |s| ==> !IsUpper(s[i])
  }

  /** `toLowerCase`, restricted to the ASCII letters. */
  function ToLower(s: string): (r: string)
    ensures |r| == |s|
    ensures forall i :: 0 <= i < |s| ==> r[i] == ToLowerChar(s[i])
    ensures IsLowerCase(r)
  {
    seq(|s|, i requires 0 <= i < |s| => ToLowerChar(s[i]))
  }

  lemma ToLowerIdempotent(s: string)
    ensures ToLower(ToLower(s)) == ToLower(s)
  {
  }

  lemma ToLowerOfLower(s: string)
    requires IsLowerCase(s)
    ensures ToLower(s) == s
  {
  }

  /* ----- prefixes, suffixes, infixes ----- */

  predicate StartsWith(s: string, p: string) {
    |p| <= |s| && s[..|p|] == p
  }

  predicate EndsWith(s: string, p: string) {
    |p| <= |s| && s[|s| - |p|..] == p
  }

  /** `s.includes(sub)`: `sub` occurs in `s` at some position. */
  predicate Contains(s: string, sub: string) {
    exists k | 0 <= k <= |s| - |sub| :: InfixAt(s, sub, k)
  }

  /** `sub` occurs in `s` starting at position `k`. */
  predicate InfixAt(s: string, sub: string, k: int) {
    0 <= k && k + |sub| <= |s| && s[k..k + |sub|] == sub
  }

  /** Appending keeps a prefix. */
  lemma KeepsPrefix(s: string, t: string)
    ensures StartsWith(s + t, s)
  {
    assert (s + t)[..|s|] == s;
  }

  lemma KeepsPrefixOf(s: string, t: string, p: string)
    requires StartsWith(s, p)
    ensures StartsWith(s + t, p)
  {
    assert (s + t)[..|p|] == s[..|p|];
  }

  lemma ContainsEmpty(s: string)
    ensures Contains(s, "")
  {
    assert InfixAt(s, "", 0);
  }

  lemma ContainsSelf(s: string)
    ensures Contains(s, s)
  {
    assert InfixAt(s, s, 0);
  }

  /** Index of the first occurrence of `c` at or after `from`, or -1. */
  function IndexOfFrom(s: string, c: char, from: nat): (r: int)
    requires from <= |s|
    ensures r == -1 || (from <= r < |s| && s[r] == c)
    ensures r == -1 ==> forall k :: from <= k < |s| ==> s[k] != c
    ensures r != -1 ==> forall k :: from <= k < r ==> s[k] != c
    decreases |s| - from
  {
    if from == |s| then -1
    else if s[from] == c then from
    else IndexOfFrom(s, c, from + 1)
  }

  /** `s.indexOf(c)`. */
  function IndexOf(s: string, c: char): (r: int)
    ensures r == -1 <==> c !in s
    ensures r != -1 ==> 0 <= r < |s| && s[r] == c && c !in s[..r]
  {
    IndexOfFrom(s, c, 0)
  }

  /** `s.lastIndexOf(c)`: the last position holding `c`, or -1. */
  function LastIndexOf(s: string, c: char): (r: int)
    ensures r == -1 <==> c !in s
    ensures r != -1 ==> 0 <= r < |s| && s[r] == c && c !in s[r + 1..]
  {
    if |s| == 0 then -1
    else if s[|s| - 1] == c then |s| - 1
    else
      var r := LastIndexOf(s[..|s| - 1], c);
      assert s == s[..|s| - 1] + [s[|s| - 1]];
      assert r != -1 ==> s[r + 1..] == s[..|s| - 1][r + 1..] + [s[|s| - 1]];
      r
  }

  /** The last occurrence is the one with no occurrence after it. */
  lemma LastIndexOfAt(s: string, c: char, k: nat)
    requires k < |s| && s[k] == c && c !in s[k + 1..]
    ensures LastIndexOf(s, c) == k
  {
    var r := LastIndexOf(s, c);
    forall j | k < j < |s| ensures s[j] != c {
      assert s[j] == s[k + 1..][j - k - 1];
    }
    forall j | r < j < |s| ensures s[j] != c {
      assert s[j] == s[r + 1..][j - r - 1];
    }
  }

  /** `s.slice(start)`: a negative start counts from the end. */
  function JsSlice(s: string, start: int): (r: string)
    ensures |r| <= |s| && r == s[|s| - |r|..]
  {
    if start < 0 then (if |s| + start <= 0 then s else s[|s| + start..])
    else if start >= |s| then []
    else s[start..]
  }

  /** `s.substring(start)`: a negative start counts as 0. */
  function JsSubstring(s: string, start: int): (r: string)
    ensures |r| <= |s| && r == s[|s| - |r|..]
    ensures start <= 0 ==> r == s
  {
    if start <= 0 then s else if start >= |s| then [] else s[start..]
  }

  /* ----- split and join on one separator character ----- */

  /** `s.split(sep)` for a one-character separator: the maximal sep-free pieces, always at least one. */
  function Split(s: string, sep: char): (parts: seq<string>)
    ensures |parts| >= 1
    ensures forall i :: 0 <= i < |parts| ==> sep !in parts[i]
    decreases |s|
  {
    if |s| == 0 then [""]
    else
      var rest := Split(s[1..], sep);
      if s[0] == sep then [""] + rest
      else [[s[0]] + rest[0]] + rest[1..]
  }

  /** `parts.join(sep)`. */
  function Join(parts: seq<string>, sep: string): string
  {
    if |parts| == 0 then ""
    else if |parts| == 1 then parts[0]
    else parts[0] + sep + Join(parts[1..], sep)
  }

  /** Joining the pieces of a split gives back the original text. */
  lemma {:induction false} JoinSplit(s: string, sep: char)
    ensures Join(Split(s, sep), [sep]) == s
    decreases |s|
  {
    if |s| > 0 {
      var rest := Split(s[1..], sep);
      JoinSplit(s[1..], sep);
      if s[0] == sep {
        assert Split(s, sep) == [""] + rest;
        assert ([""] + rest)[1..] == rest;
        assert s == [sep] + s[1..];
      }
      else {
        var parts := Split(s, sep);
        assert parts == [[s[0]] + rest[0]] + rest[1..];
        if |rest| == 1 {
          assert s == [s[0]] + s[1..];
        }
        else {
          assert parts[1..] == rest[1..];
          assert Join(rest, [sep]) == rest[0] + [sep] + Join(rest[1..], [sep]);
          assert s == [s[0]] + s[1..];
        }
      }
    }
  }

  lemma {:induction false} SplitNoSep(a: string, sep: char)
    requires sep !in a
    ensures Split(a, sep) == [a]
    decreases |a|
  {
    if |a| > 0 {
      SplitNoSep(a[1..], sep);
      assert [a[0]] + a[1..] == a;
    }
  }

  lemma {:induction false} SplitCut(a: string, b: string, sep: char)
    requires sep !in a
    ensures Split(a + [sep] + b, sep) == [a] + Split(b, sep)
    decreases |a|
  {
    if |a| == 0 {
      assert a + [sep] + b == [sep] + b;
      assert ([sep] + b)[1..] == b;
    }
    else {
      var s := a + [sep] + b;
      assert s[1..] == a[1..] + [sep] + b;
      SplitCut(a[1..], b, sep);
      assert [a[0]] + a[1..] == a;
    }
  }

  /** Splitting a join of sep-free pieces gives back the pieces. */
  lemma {:induction false} SplitJoin(parts: seq<string>, sep: char)
    requires |parts| >= 1
    requires forall i :: 0 <= i < |parts| ==> sep !in parts[i]
    ensures Split(Join(parts, [sep]), sep) == parts
    decreases |parts|
  {
    if |parts| == 1 {
      SplitNoSep(parts[0], sep);
    }
    else {
      SplitJoin(parts[1..], sep);
      SplitCut(parts[0], Join(parts[1..], [sep]), sep);
      assert [parts[0]] + parts[1..] == parts;
    }
  }

  /** Join of n pieces: the pieces' lengths plus n - 1 separators. */
  lemma {:induction false} JoinLength(parts: seq<string>, sep: string)
    requires |parts| >= 1
    ensures |Join(parts, sep)| == SumLengths(parts) + (|parts| - 1) * |sep|
    decreases |parts|
  {
    if |parts| > 1 {
      JoinLength(parts[1..], sep);
    }
    else {
      assert SumLengths(parts[1..]) == 0;
    }
  }

  /** Joining one more piece adds the separator and the piece. */
  lemma {:induction false} JoinSnoc(parts: seq<string>, last: string, sep: string)
    requires |parts| >= 1
    ensures Join(parts + [last], sep) == Join(parts, sep) + sep + last
    decreases |parts|
  {
    if |parts| == 1 {
      assert (parts + [last])[1..] == [last];
    }
    else {
      assert (parts + [last])[1..] == parts[1..] + [last];
      JoinSnoc(parts[1..], last, sep);
    }
  }

  /** Appends the parts one after another to `head`, with the separator after every part but
      the last. */
  method AppendJoined(head: string, parts: seq<string>, sep: string) returns (r: string)
    ensures r == head + Join(parts, sep)
  {
    r := head;
    var i := 0;
    while i < |parts|
      invariant 0 <= i <= |parts|
      invariant i == 0 ==> r == head
      invariant 0 < i < |parts| ==> r == head + Join(parts[..i], sep) + sep
      invariant 0 < i == |parts| ==> r == head + Join(parts[..i], sep)
    {
      assert parts[..i + 1] == parts[..i] + [parts[i]];
      if i > 0 {
        JoinSnoc(parts[..i], parts[i], sep);
        assert r + parts[i] == head + Join(parts[..i + 1], sep);
      } else {
        assert Join(parts[..1], sep) == parts[0];
      }
      r := r + parts[i];
      if i < |parts| - 1 {
        r := r + sep;
      }
      i := i + 1;
    }
    if |parts| > 0 {
      assert parts[..i] == parts;
    }
  }

  /** A join ends with its last piece. */
  lemma {:induction false} JoinEndsWithLast(parts: seq<string>, sep: string)
    requires |parts| >= 1
    ensures EndsWith(Join(parts, sep), parts[|parts| - 1])
    decreases |parts|
  {
    if |parts| > 1 {
      JoinEndsWithLast(parts[1..], sep);
      var j := Join(parts, sep);
      var rest := Join(parts[1..], sep);
      var last := parts[|parts| - 1];
      assert j == parts[0] + sep + rest;
      assert j[|j| - |last|..] == rest[|rest| - |last|..];
    }
  }

  function SumLengths(parts: seq<string>): nat
  {
    if |parts| == 0 then 0 else |parts[0]| + SumLengths(parts[1..])
  }

  /** Concatenation without separators. */
  function Concat(parts: seq<string>): string
  {
    if |parts| == 0 then "" else parts[0] + Concat(parts[1..])
  }

  lemma {:induction false} ConcatAppend(parts: seq<string>, last: string)
    ensures Concat(parts + [last]) == Concat(parts) + last
    decreases |parts|
  {
    if |parts| == 0 {
      assert parts + [last] == [last];
    }
    else {
      assert (parts + [last])[1..] == parts[1..] + [last];
      ConcatAppend(parts[1..], last);
    }
  }

  /* ----- lengths as JavaScript counts them ----- */

  /** `s.length` in JavaScript: UTF-16 code units, two for a code point above U+FFFF. */
  function JsLength(s: string): (n: nat)
    ensures |s| <= n <= 2 * |s|
  {
    if |s| == 0 then 0
    else (if s[0] as int > 0xFFFF then 2 else 1) + JsLength(s[1..])
  }

  lemma {:induction false} JsLengthAppend(a: string, b: string)
    ensures JsLength(a + b) == JsLength(a) + JsLength(b)
    decreases |a|
  {
    if |a| > 0 {
      assert (a + b)[1..] == a[1..] + b;
      JsLengthAppend(a[1..], b);
    }
    else {
      assert a + b == b;
    }
  }

  /** `" ".repeat(n)`. */
  function Spaces(n: nat): (r: string)
    ensures |r| == n && AllSpace(r)
    ensures forall i :: 0 <= i < n ==> r[i] == ' '
  {
    seq(n, _ => ' ')
  }
}
