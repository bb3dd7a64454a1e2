/** The triple-backtick fence scanner: `/```(\w+)?\n([\s\S]*?)```/g` run with `exec` from
    `lastIndex` until it fails, as utils/chat-utils.ts, the message renderer and the HTML
    exporter all do. `MatchAt` is one anchored attempt of the regex; `NextMatch` is the
    leftmost attempt that succeeds; `Matches` is the whole global scan. */
module Fence {
  import opened Wrappers
  import opened Strings
  import opened Types

  /** `\w` without the `u` flag. */
  predicate IsWordChar(c: char) {
    ('A' <= c <= 'Z') || ('a' <= c <= 'z') || ('0' <= c <= '9') || c == '_'
  }

  predicate IsWord(s: string) {
    forall i :: 0 <= i < |s| ==> IsWordChar(s[i])
  }

  const Ticks: string := "```"

  /** Three backticks start at position `i` of `s`. */
  predicate TicksAt(s: string, i: int) {
    0 <= i && i + 3 <= |s| && s[i] == '`' && s[i + 1] == '`' && s[i + 2] == '`'
  }

  /** `s` contains no "```". */
  predicate NoTicks(s: string) {
    forall i :: 0 <= i < |s| ==> !TicksAt(s, i)
  }

  /** The text one fence occupies. */
  function FenceText(lang: string, body: string): string {
    Ticks + lang + "\n" + body + Ticks
  }

  /** Reference reading of the regex anchored at `p`: the text there is `FenceText(lang, body)`,
      `lang` is a run of word characters, and `body` is the SHORTEST text after the newline that
      is followed by "```" (the lazy `*?`): no "```" starts inside it. */
  predicate IsFenceAt(s: string, p: nat, lang: string, body: string) {
    && IsWord(lang)
    && p + |FenceText(lang, body)| <= |s|
    && s[p..p + |FenceText(lang, body)|] == FenceText(lang, body)
    && forall k :: 0 <= k < |body| ==> !TicksAt(body + Ticks, k)
  }

  /** One successful attempt: the fence starts at `start` and the scan resumes at `end`. */
  datatype Match = Match(start: nat, lang: string, body: string, end: nat)

  /** End of the maximal run of word characters starting at `i`. */
  function WordEnd(s: string, i: nat): (j: nat)
    requires i <= |s|
    ensures i <= j <= |s| && IsWord(s[i..j])
    ensures j == |s| || !IsWordChar(s[j])
    decreases |s| - i
  {
    if i < |s| && IsWordChar(s[i]) then
      var j := WordEnd(s, i + 1);
      assert s[i..j] == [s[i]] + s[i + 1..j];
      j
    else i
  }

  /** First "```" at or after `i`. */
  function FindTicks(s: string, i: nat): (r: Option<nat>)
    requires i <= |s|
    ensures r.Some? ==> i <= r.value && TicksAt(s, r.value)
    ensures r.Some? ==> forall k :: i <= k < r.value ==> !TicksAt(s, k)
    ensures r.None? ==> forall k :: i <= k ==> !TicksAt(s, k)
    decreases |s| - i
  {
    if i + 3 > |s| then None
    else if TicksAt(s, i) then Some(i)
    else FindTicks(s, i + 1)
  }

  lemma TicksAtSlice(s: string, a: nat, b: nat, k: nat)
    requires a <= b <= |s|
    requires TicksAt(s[a..b], k)
    ensures TicksAt(s, a + k)
  {
    assert s[a..b][k] == s[a + k];
    assert s[a..b][k + 1] == s[a + k + 1];
    assert s[a..b][k + 2] == s[a + k + 2];
  }

  /** One attempt of the regex anchored at `p`. The optional group `(\w+)?` followed by `\n`
      can only succeed with the maximal word run, so no backtracking alternative exists. */
  function MatchAt(s: string, p: nat): (r: Option<Match>)
    ensures r.Some? ==> r.value.start == p && p < r.value.end <= |s|
  {
    if !TicksAt(s, p) then None
    else
      var w := WordEnd(s, p + 3);
      if w < |s| && s[w] == '\n' then
        match FindTicks(s, w + 1)
        case None => None
        case Some(c) => Some(Match(p, s[p + 3..w], s[w + 1..c], c + 3))
      else None
  }

  /** The pieces of a fence text sitting at `p`, and the converse: pieces that sit side by side
      make up the fence text. */
  lemma FenceParts(s: string, p: nat, lang: string, body: string)
    requires p + |FenceText(lang, body)| <= |s|
    ensures var w, c := p + 3 + |lang|, p + 4 + |lang| + |body|;
      s[p..c + 3] == FenceText(lang, body) <==>
        && s[p..p + 3] == Ticks && s[p + 3..w] == lang && s[w] == '\n'
        && s[w + 1..c] == body && s[c..c + 3] == Ticks
  {
    FenceTextPieces(lang, body);
    SliceIsPieces(s, p, FenceText(lang, body), lang, body);
  }

  /** The slice of `s` at `p` as long as `f` is `f` exactly when the five pieces of `f` sit
      side by side from `p`. */
  lemma SliceIsPieces(s: string, p: nat, f: string, lang: string, body: string)
    requires var l, n := |lang|, |body|;
      && |f| == 7 + l + n && p + |f| <= |s|
      && f[..3] == Ticks && f[3..3 + l] == lang && f[3 + l] == '\n'
      && f[4 + l..4 + l + n] == body && f[4 + l + n..] == Ticks
    ensures var w, c := p + 3 + |lang|, p + 4 + |lang| + |body|;
      s[p..c + 3] == f <==>
        && s[p..p + 3] == Ticks && s[p + 3..w] == lang && s[w] == '\n'
        && s[w + 1..c] == body && s[c..c + 3] == Ticks
  {
    var l, n := |lang|, |body|;
    SlicePieces(s, p, l, n);
    SamePieces(s[p..p + 7 + l + n], f, l, n);
  }

  /** Two texts of the same length are equal exactly when their five pieces are. */
  lemma SamePieces(t: string, f: string, l: nat, n: nat)
    requires |t| == |f| == 7 + l + n
    ensures t == f <==>
      && t[..3] == f[..3] && t[3..3 + l] == f[3..3 + l] && t[3 + l] == f[3 + l]
      && t[4 + l..4 + l + n] == f[4 + l..4 + l + n] && t[4 + l + n..] == f[4 + l + n..]
  {
    Pieces(t, l, n);
    Pieces(f, l, n);
  }

  /** The five pieces of a fence text. */
  lemma FenceTextPieces(lang: string, body: string)
    ensures var f, l, n := FenceText(lang, body), |lang|, |body|;
      && |f| == 7 + l + n
      && f[..3] == Ticks && f[3..3 + l] == lang && f[3 + l] == '\n'
      && f[4 + l..4 + l + n] == body && f[4 + l + n..] == Ticks
  {
  }

  /** The five pieces of a slice of `s` taken at `p`, as slices of `s`. */
  lemma SlicePieces(s: string, p: nat, l: nat, n: nat)
    requires p + 7 + l + n <= |s|
    ensures var t, w, c := s[p..p + 7 + l + n], p + 3 + l, p + 4 + l + n;
      && t[..3] == s[p..p + 3] && t[3..3 + l] == s[p + 3..w] && t[3 + l] == s[w]
      && t[4 + l..4 + l + n] == s[w + 1..c] && t[4 + l + n..] == s[c..c + 3]
  {
    var q := p + 7 + l + n;
    SliceOfSlice(s, p, q, 0, 3);
    SliceOfSlice(s, p, q, 3, 3 + l);
    SliceOfSlice(s, p, q, 4 + l, 4 + l + n);
    SliceOfSlice(s, p, q, 4 + l + n, 7 + l + n);
  }

  /** A slice of a slice is a slice of the whole. */
  lemma SliceOfSlice(s: string, p: nat, q: nat, i: nat, j: nat)
    requires p <= q <= |s| && i <= j <= q - p
    ensures s[p..q][i..j] == s[p + i..p + j]
  {
    assert forall k | 0 <= k < j - i :: s[p..q][i..j][k] == s[p + i + k];
  }

  /** A text of that length is the concatenation of its five pieces. */
  lemma Pieces(t: string, l: nat, n: nat)
    requires |t| == 7 + l + n
    ensures t == t[..3] + t[3..3 + l] + [t[3 + l]] + t[4 + l..4 + l + n] + t[4 + l + n..]
  {
  }

  lemma TicksAtPiece(s: string, i: nat)
    requires i + 3 <= |s|
    ensures TicksAt(s, i) <==> s[i..i + 3] == Ticks
  {
    if TicksAt(s, i) {
      assert s[i..i + 3] == [s[i], s[i + 1], s[i + 2]];
    }
  }

  /** The converse of `TicksAtSlice`: "```" of `s` that lies within [a, b) is "```" of `s[a..b]`. */
  lemma TicksAtSliceBack(s: string, a: nat, b: nat, k: nat)
    requires a <= b <= |s| && a + k + 3 <= b
    requires TicksAt(s, a + k)
    ensures TicksAt(s[a..b], k)
  {
    assert s[a..b][k] == s[a + k];
    assert s[a..b][k + 1] == s[a + k + 1];
    assert s[a..b][k + 2] == s[a + k + 2];
  }

  /** A run of word characters and a newline between an opening "```" and the first "```"
      after it make a fence in the reference reading. */
  lemma FenceFromParts(s: string, p: nat, w: nat, c: nat)
    requires TicksAt(s, p) && p + 3 <= w < c && TicksAt(s, c)
    requires IsWord(s[p + 3..w]) && s[w] == '\n'
    requires forall k :: w + 1 <= k < c ==> !TicksAt(s, k)
    ensures IsFenceAt(s, p, s[p + 3..w], s[w + 1..c])
    ensures c + 3 == p + |FenceText(s[p + 3..w], s[w + 1..c])|
  {
    var lang, body := s[p + 3..w], s[w + 1..c];
    TicksAtPiece(s, p);
    TicksAtPiece(s, c);
    FenceParts(s, p, lang, body);
    assert s[w + 1..c + 3] == body + Ticks;
    forall k | 0 <= k < |body| ensures !TicksAt(body + Ticks, k) {
      if TicksAt(body + Ticks, k) {
        TicksAtSlice(s, w + 1, c + 3, k);
      }
    }
  }

  /** Every successful attempt is a fence in the reference reading, ending where the scan
      resumes. */
  lemma MatchAtSound(s: string, p: nat)
    requires MatchAt(s, p).Some?
    ensures var m := MatchAt(s, p).value;
      && IsFenceAt(s, p, m.lang, m.body) && m.end == p + |FenceText(m.lang, m.body)|
  {
    var w := WordEnd(s, p + 3);
    var c := FindTicks(s, w + 1).value;
    FenceFromParts(s, p, w, c);
  }

  /** The regex succeeds at `p` exactly when the reference reading holds, and then with that
      language and body: `MatchAt` is complete for `IsFenceAt`. */
  lemma MatchAtComplete(s: string, p: nat, lang: string, body: string)
    requires IsFenceAt(s, p, lang, body)
    ensures MatchAt(s, p) == Some(Match(p, lang, body, p + |FenceText(lang, body)|))
  {
    var w, c := p + 3 + |lang|, p + 4 + |lang| + |body|;
    assert s[p..p + 3] == Ticks && s[p + 3..w] == lang && s[w] == '\n'
        && s[w + 1..c] == body && s[c..c + 3] == Ticks by {
      FenceParts(s, p, lang, body);
    }
    assert TicksAt(s, p) by { TicksAtPiece(s, p); }
    assert WordEnd(s, p + 3) == w by { LanguageRun(s, p, lang); }
    assert FindTicks(s, w + 1) == Some(c) by { BodyRun(s, w, body); }
    assert |FenceText(lang, body)| == c + 3 - p by { FenceTextPieces(lang, body); }
    MatchFromPieces(s, p, w, c);
  }

  /** The attempt at `p` once its three searches are known: "```" at `p`, the word ending at a
      newline at `w`, and the first "```" after it at `c`. */
  lemma MatchFromPieces(s: string, p: nat, w: nat, c: nat)
    requires TicksAt(s, p) && WordEnd(s, p + 3) == w && w < |s| && s[w] == '\n'
    requires FindTicks(s, w + 1) == Some(c)
    ensures MatchAt(s, p) == Some(Match(p, s[p + 3..w], s[w + 1..c], c + 3))
  {
  }

  /** A word right after the opening "```" and followed by a non-word character ends there. */
  lemma LanguageRun(s: string, p: nat, lang: string)
    requires p + 3 + |lang| < |s| && s[p + 3..p + 3 + |lang|] == lang && IsWord(lang)
    requires !IsWordChar(s[p + 3 + |lang|])
    ensures WordEnd(s, p + 3) == p + 3 + |lang|
  {
    var w := p + 3 + |lang|;
    forall i | p + 3 <= i < w ensures IsWordChar(s[i]) {
      assert s[i] == s[p + 3..w][i - p - 3] == lang[i - p - 3];
    }
    WordEndOfRun(s, p + 3, w);
  }

  /** A body holding no "```" and followed by "```" makes that "```" the first after its start. */
  lemma BodyRun(s: string, w: nat, body: string)
    requires w + 4 + |body| <= |s| && s[w + 1..w + 1 + |body|] == body
    requires s[w + 1 + |body|..w + 4 + |body|] == Ticks
    requires forall k :: 0 <= k < |body| ==> !TicksAt(body + Ticks, k)
    ensures FindTicks(s, w + 1) == Some(w + 1 + |body|)
  {
    var c := w + 1 + |body|;
    TicksAtPiece(s, c);
    assert s[w + 1..c + 3] == body + Ticks;
    forall k | w + 1 <= k < c ensures !TicksAt(s, k) {
      if TicksAt(s, k) {
        TicksAtSliceBack(s, w + 1, c + 3, k - (w + 1));
      }
    }
    FindTicksFirst(s, w + 1, c);
  }

  lemma WordEndOfRun(s: string, i: nat, w: nat)
    requires i <= w < |s|
    requires forall k :: i <= k < w ==> IsWordChar(s[k])
    requires !IsWordChar(s[w])
    ensures WordEnd(s, i) == w
    decreases w - i
  {
    if i < w {
      WordEndOfRun(s, i + 1, w);
    }
  }

  lemma FindTicksFirst(s: string, i: nat, c: nat)
    requires i <= c && TicksAt(s, c)
    requires forall k :: i <= k < c ==> !TicksAt(s, k)
    ensures FindTicks(s, i) == Some(c)
    decreases c - i
  {
    if i < c {
      FindTicksFirst(s, i + 1, c);
    }
  }

  /** No attempt succeeds at any position in [a, b). */
  predicate NoFenceIn(s: string, a: nat, b: nat) {
    forall p: nat :: a <= p < b ==> MatchAt(s, p).None?
  }

  /** The leftmost successful attempt at or after `from`. */
  function NextMatch(s: string, from: nat): (r: Option<Match>)
    requires from <= |s|
    ensures r.Some? ==> from <= r.value.start && MatchAt(s, r.value.start) == r
    ensures r.Some? ==> NoFenceIn(s, from, r.value.start)
    ensures r.None? ==> NoFenceIn(s, from, |s| + 1)
    decreases |s| - from
  {
    match MatchAt(s, from)
    case Some(m) => Some(m)
    case None => if from == |s| then None else NextMatch(s, from + 1)
  }

  /** Reference reading of the `/g` loop from `from`: the first match is the leftmost successful
      attempt at or after `from`, the rest is the scan from its end, and when none is left no
      attempt succeeds from `from` to the end of the text. */
  predicate IsScan(s: string, from: nat, ms: seq<Match>)
    decreases |ms|
  {
    if ms == [] then NoFenceIn(s, from, |s| + 1)
    else
      && from <= ms[0].start
      && MatchAt(s, ms[0].start) == Some(ms[0])
      && NoFenceIn(s, from, ms[0].start)
      && IsScan(s, ms[0].end, ms[1..])
  }

  /** The global scan from `from`. */
  function MatchesFrom(s: string, from: nat): (ms: seq<Match>)
    requires from <= |s|
    ensures IsScan(s, from, ms)
    decreases |s| - from
  {
    match NextMatch(s, from)
    case None => []
    case Some(m) =>
      var ms := [m] + MatchesFrom(s, m.end);
      assert ms[1..] == MatchesFrom(s, m.end);
      ms
  }

  /** `/g` scanning from 0. */
  function Matches(s: string): (ms: seq<Match>)
    ensures IsScan(s, 0, ms)
  {
    MatchesFrom(s, 0)
  }

  /** Each element of a scan is a successful attempt, so it lies inside the text, and the matches
      come in text order without overlapping. */
  lemma {:induction false} ScanElements(s: string, from: nat, ms: seq<Match>, i: nat)
    requires IsScan(s, from, ms) && i < |ms|
    ensures MatchAt(s, ms[i].start) == Some(ms[i])
    ensures from <= ms[i].start < ms[i].end <= |s|
    ensures i + 1 < |ms| ==> ms[i].end <= ms[i + 1].start
    decreases |ms|
  {
    if i > 0 {
      ScanElements(s, ms[0].end, ms[1..], i - 1);
      assert ms[1..][i - 1] == ms[i];
      if i + 1 < |ms| {
        assert ms[1..][i] == ms[i + 1];
      }
    }
    else if |ms| > 1 {
      ScanElements(s, ms[0].end, ms[1..], 0);
      assert ms[1..][0] == ms[1];
    }
  }

  /** The scan is determined by the text: any two sequences that satisfy the reference reading
      from the same start are equal, so `MatchesFrom` is the only one. */
  lemma {:induction false} ScanUnique(s: string, from: nat, ms1: seq<Match>, ms2: seq<Match>)
    requires IsScan(s, from, ms1) && IsScan(s, from, ms2)
    ensures ms1 == ms2
    decreases |ms1|
  {
    if ms1 != [] && ms2 != [] {
      LeftmostUnique(s, from, ms1[0], ms2[0]);
      ScanUnique(s, ms1[0].end, ms1[1..], ms2[1..]);
      assert ms1 == [ms1[0]] + ms1[1..] && ms2 == [ms2[0]] + ms2[1..];
    }
    else if ms1 == [] {
      ScanOfNone(s, from, ms2);
    }
    else {
      ScanOfNone(s, from, ms1);
    }
  }

  /** Two successful attempts that each are the leftmost one from `from` are the same match. */
  lemma LeftmostUnique(s: string, from: nat, m1: Match, m2: Match)
    requires from <= m1.start && MatchAt(s, m1.start) == Some(m1) && NoFenceIn(s, from, m1.start)
    requires from <= m2.start && MatchAt(s, m2.start) == Some(m2) && NoFenceIn(s, from, m2.start)
    ensures m1 == m2
  {
  }

  /** When no attempt succeeds from `from` on, the scan from there is empty. */
  lemma ScanOfNone(s: string, from: nat, ms: seq<Match>)
    requires IsScan(s, from, ms) && NoFenceIn(s, from, |s| + 1)
    ensures ms == []
  {
  }

  /** The language a block reports: the word after the backticks, or "text" when there is none. */
  function BlockLanguage(lang: string): (r: string)
    ensures r != "" && (IsWord(lang) ==> IsWord(r))
    ensures lang != "" ==> r == lang
  {
    if lang == "" then
      assert IsWordChar('t') && IsWordChar('e') && IsWordChar('x');
      "text"
    else lang
  }

  /** `extractCodeBlocks`: one block per match, in text order. */
  function ExtractCodeBlocks(content: string): (blocks: seq<CodeBlock>)
    ensures |blocks| == |Matches(content)|
    ensures forall i :: 0 <= i < |blocks| ==>
      var m := Matches(content)[i];
      blocks[i].language == BlockLanguage(m.lang) && blocks[i].code == Trim(m.body)
  {
    var ms := Matches(content);
    seq(|ms|, i requires 0 <= i < |ms| => CodeBlock(BlockLanguage(ms[i].lang), Trim(ms[i].body)))
  }

  /** A lazy body holds no "```" of its own. */
  lemma LazyBodyNoTicks(body: string)
    requires forall k :: 0 <= k < |body| ==> !TicksAt(body + Ticks, k)
    ensures NoTicks(body)
  {
    forall k | 0 <= k < |body| ensures !TicksAt(body, k) {
      if TicksAt(body, k) {
        assert (body + Ticks)[k] == body[k];
        assert (body + Ticks)[k + 1] == body[k + 1];
        assert (body + Ticks)[k + 2] == body[k + 2];
        assert TicksAt(body + Ticks, k);
      }
    }
  }

  /** Trimming keeps a text free of "```". */
  lemma TrimNoTicks(s: string)
    requires NoTicks(s)
    ensures NoTicks(Trim(s))
  {
    var t := Trim(s);
    var k := TrimIsInfix(s);
    assert k + |t| <= |s| && t == s[k..k + |t|];
    NoTicksOfInfix(s, t, k);
  }

  /** A text found inside a text free of "```" is free of it too. */
  lemma NoTicksOfInfix(s: string, t: string, k: nat)
    requires NoTicks(s) && k + |t| <= |s| && t == s[k..k + |t|]
    ensures NoTicks(t)
  {
    NoTicksInfix(s, k, k + |t|);
  }

  /** The language and body of every match of the scan. */
  lemma MatchShape(s: string, i: nat)
    requires i < |Matches(s)|
    ensures IsWord(Matches(s)[i].lang) && NoTicks(Matches(s)[i].body)
  {
    var m := Matches(s)[i];
    ScanElements(s, 0, Matches(s), i);
    MatchAtSound(s, m.start);
    LazyBodyNoTicks(m.body);
  }

  /** Every block's language is a non-empty word, and its code is trimmed and holds no "```". */
  lemma BlockShape(content: string, i: nat)
    requires i < |ExtractCodeBlocks(content)|
    ensures var b := ExtractCodeBlocks(content)[i];
      && b.language != "" && IsWord(b.language)
      && IsTrimmed(b.code) && NoTicks(b.code)
  {
    MatchShape(content, i);
    TrimNoTicks(Matches(content)[i].body);
  }

  lemma NoTicksInfix(s: string, a: nat, b: nat)
    requires a <= b <= |s| && NoTicks(s)
    ensures NoTicks(s[a..b])
  {
    forall k | 0 <= k < b - a ensures !TicksAt(s[a..b], k) {
      if TicksAt(s[a..b], k) {
        TicksAtSlice(s, a, b, k);
      }
    }
  }

  /** No block comes out exactly when no attempt succeeds anywhere in the text. */
  lemma NoBlocksIffNoFence(content: string)
    ensures ExtractCodeBlocks(content) == [] <==> NoFenceIn(content, 0, |content| + 1)
  {
    var ms := Matches(content);
    if |ms| > 0 {
      assert MatchAt(content, ms[0].start).Some?;
      assert ms[0].start <= |content|;
    }
  }

  /** A successful attempt opens with "```" and closes with the first "```" after its header. */
  lemma MatchAtTicks(s: string, p: nat)
    requires MatchAt(s, p).Some?
    ensures TicksAt(s, p) && p + 3 <= MatchAt(s, p).value.end - 3 && TicksAt(s, MatchAt(s, p).value.end - 3)
  {
  }

  /** An opener that is never followed by another "```" yields no block: when no "```" in the
      text is followed by a later one, nothing is extracted. */
  lemma UnterminatedYieldsNothing(content: string)
    requires forall p, q :: p + 3 <= q && TicksAt(content, p) ==> !TicksAt(content, q)
    ensures ExtractCodeBlocks(content) == []
  {
    forall p: nat | p <= |content| ensures MatchAt(content, p).None? {
      if MatchAt(content, p).Some? {
        MatchAtTicks(content, p);
        assert false;
      }
    }
    NoBlocksIffNoFence(content);
  }

  /** The text of a fence as the prompt templates, attachments and paste handlers write it:
      "```" + lang + "\n" + code + "\n```". */
  function FenceOf(lang: string, code: string): string {
    Ticks + lang + "\n" + code + "\n" + Ticks
  }

  lemma NoTicksJoin(a: string, b: string)
    requires NoTicks(a) && NoTicks(b)
    requires (|a| > 0 && a[|a| - 1] != '`') || (|b| > 0 && b[0] != '`')
    ensures NoTicks(a + b)
  {
    forall k | 0 <= k < |a + b| ensures !TicksAt(a + b, k) {
      if TicksAt(a + b, k) {
        if k + 3 <= |a| {
          assert a[k..k + 3] == (a + b)[k..k + 3];
          assert TicksAt(a, k);
        }
        else if k >= |a| {
          assert (a + b)[k] == b[k - |a|];
          assert (a + b)[k + 1] == b[k - |a| + 1];
          assert (a + b)[k + 2] == b[k - |a| + 2];
          assert TicksAt(b, k - |a|);
        }
      }
    }
  }

  lemma NoBacktickNoTicks(s: string)
    requires '`' !in s
    ensures NoTicks(s)
  {
    forall k | 0 <= k < |s| ensures !TicksAt(s, k) {
      assert s[k] in s;
    }
  }

  /** The body `code + "\n"` of a fence written by `FenceOf` is lazy when `code` holds no "```". */
  lemma NewlineBodyLazy(code: string)
    requires NoTicks(code)
    ensures forall k :: 0 <= k < |code + "\n"| ==> !TicksAt(code + "\n" + Ticks, k)
  {
    var body := code + "\n";
    forall k | 0 <= k < |body| ensures !TicksAt(body + Ticks, k) {
      if TicksAt(body + Ticks, k) {
        if k + 3 <= |code| {
          assert (body + Ticks)[k..k + 3] == code[k..k + 3];
          assert TicksAt(code, k);
        }
      }
    }
  }

  /** No attempt succeeds inside a prefix free of "```" that does not end in a backtick. */
  lemma PrefixNoFence(prefix: string, t: string)
    requires NoTicks(prefix) && (prefix == [] || prefix[|prefix| - 1] != '`')
    ensures NoFenceIn(prefix + t, 0, |prefix|)
  {
    var s := prefix + t;
    forall q: nat | q < |prefix| ensures !TicksAt(s, q) {
      if q + 3 <= |prefix| {
        assert s[q] == prefix[q] && s[q + 1] == prefix[q + 1] && s[q + 2] == prefix[q + 2];
        assert !TicksAt(prefix, q);
      }
      else {
        assert s[|prefix| - 1] == prefix[|prefix| - 1];
      }
    }
  }

  /** A text whose only successful attempt is one match reaching its end scans to that match. */
  lemma ScanSingle(s: string, m: Match)
    requires MatchAt(s, m.start) == Some(m) && m.end == |s| && NoFenceIn(s, 0, m.start)
    ensures Matches(s) == [m]
  {
    assert NoFenceIn(s, |s|, |s| + 1);
    assert IsScan(s, |s|, []);
    assert [m][1..] == [];
    assert IsScan(s, 0, [m]);
    ScanUnique(s, 0, Matches(s), [m]);
  }

  /** A scan of one match extracts one block. */
  lemma ExtractSingle(s: string, m: Match)
    requires Matches(s) == [m]
    ensures ExtractCodeBlocks(s) == [CodeBlock(BlockLanguage(m.lang), Trim(m.body))]
  {
    var bs := ExtractCodeBlocks(s);
    assert |bs| == 1 && Matches(s)[0] == m;
  }

  /** A single fence after text that holds no "```" and does not end in a backtick, with a
      word (possibly empty) as language and a body free of "```", is the text's only match: it
      starts after the prefix, its body is the code and the line feed before the closing
      backticks, and it runs to the end. */
  lemma MatchesAfterPrefix(prefix: string, lang: string, code: string)
    requires NoTicks(prefix) && (prefix == [] || prefix[|prefix| - 1] != '`')
    requires IsWord(lang) && NoTicks(code)
    ensures var s := prefix + FenceOf(lang, code);
      Matches(s) == [Match(|prefix|, lang, code + "\n", |s|)]
  {
    var s := prefix + FenceOf(lang, code);
    var p := |prefix|;
    var body := code + "\n";
    var m := Match(p, lang, body, |s|);
    assert FenceOf(lang, code) == FenceText(lang, body);
    assert s[p..|s|] == FenceText(lang, body);
    NewlineBodyLazy(code);
    assert IsFenceAt(s, p, lang, body);
    MatchAtComplete(s, p, lang, body);
    PrefixNoFence(prefix, FenceOf(lang, code));
    ScanSingle(s, m);
  }

  /** A single fence after text that holds no "```" and does not end in a backtick, with a
      word (possibly empty) as language and a body free of "```", is extracted as exactly one
      block: its language (or "text") and its trimmed code. */
  lemma ExtractAfterPrefix(prefix: string, lang: string, code: string)
    requires NoTicks(prefix) && (prefix == [] || prefix[|prefix| - 1] != '`')
    requires IsWord(lang) && NoTicks(code)
    ensures ExtractCodeBlocks(prefix + FenceOf(lang, code)) == [CodeBlock(BlockLanguage(lang), Trim(code))]
  {
    var s := prefix + FenceOf(lang, code);
    var body := code + "\n";
    var m := Match(|prefix|, lang, body, |s|);
    assert Matches(s) == [m] by {
      MatchesAfterPrefix(prefix, lang, code);
    }
    assert ExtractCodeBlocks(s) == [CodeBlock(BlockLanguage(lang), Trim(body))] by {
      ExtractSingle(s, m);
    }
    assert Trim(body) == Trim(code) by {
      TrimNewline(code);
    }
  }
}
