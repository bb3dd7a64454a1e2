/** components/saved-snippets.tsx: searching and deleting saved snippets. */
module Snippets {
  import opened Strings

  datatype Snippet = Snippet(id: string, title: string, code: string, language: string, createdAt: string, tags: seq<string>)

  /** `xs.filter(p)`: the elements that satisfy `p`, in their order. */
  function Filter(xs: seq<Snippet>, p: Snippet -> bool): (r: seq<Snippet>)
    ensures |r| <= |xs|
    ensures forall x :: x in r <==> x in xs && p(x)
    decreases |xs|
  {
    if |xs| == 0 then []
    else if p(xs[0]) then [xs[0]] + Filter(xs[1..], p)
    else
      assert forall x :: x in xs <==> x == xs[0] || x in xs[1..];
      Filter(xs[1..], p)
  }

  /** Filtering works piece by piece, so it keeps the order. */
  lemma {:induction false} FilterAppend(a: seq<Snippet>, b: seq<Snippet>, p: Snippet -> bool)
    ensures Filter(a + b, p) == Filter(a, p) + Filter(b, p)
    decreases |a|
  {
    if |a| == 0 {
      assert a + b == b;
    }
    else {
      assert (a + b)[1..] == a[1..] + b;
      FilterAppend(a[1..], b, p);
    }
  }

  /** Every element satisfies `p` exactly when the filter keeps the whole list. */
  lemma {:induction false} FilterAll(xs: seq<Snippet>, p: Snippet -> bool)
    ensures Filter(xs, p) == xs <==> forall i :: 0 <= i < |xs| ==> p(xs[i])
    decreases |xs|
  {
    if |xs| > 0 {
      FilterAll(xs[1..], p);
      if !p(xs[0]) {
        assert |Filter(xs, p)| < |xs|;
      }
    }
  }

  /** Two tests that agree on every element filter alike. */
  lemma {:induction false} FilterAgree(xs: seq<Snippet>, p: Snippet -> bool, q: Snippet -> bool)
    requires forall i :: 0 <= i < |xs| ==> p(xs[i]) == q(xs[i])
    ensures Filter(xs, p) == Filter(xs, q)
    decreases |xs|
  {
    if |xs| > 0 {
      FilterAgree(xs[1..], p, q);
    }
  }

  /** `text.toLowerCase().includes(query.toLowerCase())`. */
  predicate Mentions(text: string, query: string) {
    Contains(ToLower(text), ToLower(query))
  }

  /** The search: the title, the language or some tag mentions the query. */
  predicate Matches(s: Snippet, query: string) {
    Mentions(s.title, query) || Mentions(s.language, query)
    || exists i | 0 <= i < |s.tags| :: Mentions(s.tags[i], query)
  }

  /** `filteredSnippets`: the snippets the search matches, in their order. */
  function FilterSnippets(snippets: seq<Snippet>, query: string): (r: seq<Snippet>)
    ensures forall s :: s in r <==> s in snippets && Matches(s, query)
  {
    Filter(snippets, s => Matches(s, query))
  }

  /** An empty search shows every snippet. */
  lemma EmptyQueryKeepsAll(snippets: seq<Snippet>)
    ensures FilterSnippets(snippets, "") == snippets
  {
    forall i | 0 <= i < |snippets| ensures Matches(snippets[i], "") {
      ContainsEmpty(ToLower(snippets[i].title));
    }
    FilterAll(snippets, s => Matches(s, ""));
  }

  /** Searching a search result again changes nothing. */
  lemma FilterSnippetsIdempotent(snippets: seq<Snippet>, query: string)
    ensures FilterSnippets(FilterSnippets(snippets, query), query) == FilterSnippets(snippets, query)
  {
    var r := FilterSnippets(snippets, query);
    FilterAll(r, s => Matches(s, query));
  }

  /** The search is case-insensitive in the query. */
  lemma QueryCaseInsensitive(snippets: seq<Snippet>, query: string)
    ensures FilterSnippets(snippets, ToLower(query)) == FilterSnippets(snippets, query)
  {
    ToLowerIdempotent(query);
    FilterAgree(snippets, s => Matches(s, ToLower(query)), s => Matches(s, query));
  }

  /** `deleteSnippet`: every snippet with that id removed, the others kept in order. */
  function DeleteSnippet(snippets: seq<Snippet>, id: string): (r: seq<Snippet>)
    ensures forall s :: s in r <==> s in snippets && s.id != id
  {
    Filter(snippets, (s: Snippet) => s.id != id)
  }

  /** Deleting an unknown id leaves the list as it is. */
  lemma DeleteUnknown(snippets: seq<Snippet>, id: string)
    requires forall i :: 0 <= i < |snippets| ==> snippets[i].id != id
    ensures DeleteSnippet(snippets, id) == snippets
  {
    FilterAll(snippets, (s: Snippet) => s.id != id);
  }

  /** With unique ids, deleting the id at position `k` removes exactly that snippet. */
  lemma DeleteOne(snippets: seq<Snippet>, k: nat)
    requires k < |snippets|
    requires forall i, j :: 0 <= i < j < |snippets| ==> snippets[i].id != snippets[j].id
    ensures DeleteSnippet(snippets, snippets[k].id) == snippets[..k] + snippets[k + 1..]
  {
    var id := snippets[k].id;
    var p := (s: Snippet) => s.id != id;
    var before, after := snippets[..k], snippets[k + 1..];
    assert snippets == before + ([snippets[k]] + after);
    assert Filter(before, p) == before by {
      assert forall i :: 0 <= i < |before| ==> before[i] == snippets[i];
      FilterAll(before, p);
    }
    assert Filter(after, p) == after by {
      assert forall i :: 0 <= i < |after| ==> after[i] == snippets[k + 1 + i];
      FilterAll(after, p);
    }
    assert Filter([snippets[k]], p) == [];
    FilterAppend([snippets[k]], after, p);
    FilterAppend(before, [snippets[k]] + after, p);
  }
}
