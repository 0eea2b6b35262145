/** The navigation panel (client/src/components/Navbar/Navbar.jsx): the
    search over the user's snippets, the message shown when nothing is
    listed, and the "create new" and snippet-click handlers. */
module Navbar {
  import opened JsValues
  import opened JsStrings
  import opened SnippetModel
  import opened ClientStore

  const NOTHING_FOUND := "No snippets found"
  const NOTHING_YET := "No snippets yet"

  /** The snippet's lower-cased name includes the lower-cased search term. */
  predicate NameMatches(s: Snippet, term: string) {
    Includes(ToLower(s.name), ToLower(term))
  }

  /** `userSnippets.filter(...)` with `NameMatches` as the test. */
  function FilterUserSnippets(snippets: seq<Snippet>, term: string): (r: seq<Snippet>)
    ensures |r| <= |snippets|
    ensures forall x :: x in r ==> x in snippets && NameMatches(x, term)
    ensures forall x :: x in snippets && NameMatches(x, term) ==> x in r
    decreases |snippets|
  {
    if snippets == [] then []
    else
      var rest := FilterUserSnippets(snippets[1..], term);
      assert forall x :: x in snippets[1..] ==> x in snippets;
      assert forall x :: x in snippets ==> x == snippets[0] || x in snippets[1..];
      if NameMatches(snippets[0], term) then [snippets[0]] + rest else rest
  }

  /** The filter keeps every matching snippet as many times as the list
      holds it, and drops every other one. */
  lemma {:induction false} FilterKeepsMultiplicity(snippets: seq<Snippet>, term: string)
    ensures forall x ::
      multiset(FilterUserSnippets(snippets, term))[x] == if NameMatches(x, term) then multiset(snippets)[x] else 0
    decreases |snippets|
  {
    if snippets != [] {
      FilterKeepsMultiplicity(snippets[1..], term);
      assert snippets == [snippets[0]] + snippets[1..];
    }
  }

  /** `xs` is `ys` with some elements left out, the rest in their order. */
  predicate Subsequence<T(==)>(xs: seq<T>, ys: seq<T>)
    decreases |ys|
  {
    if xs == [] then true
    else if ys == [] then false
    else (xs[0] == ys[0] && Subsequence(xs[1..], ys[1..])) || Subsequence(xs, ys[1..])
  }

  /** The filtered list keeps the snippets in their original order. */
  lemma {:induction false} FilterIsSubsequence(snippets: seq<Snippet>, term: string)
    ensures Subsequence(FilterUserSnippets(snippets, term), snippets)
    decreases |snippets|
  {
    if snippets != [] {
      FilterIsSubsequence(snippets[1..], term);
      var rest := FilterUserSnippets(snippets[1..], term);
      if !NameMatches(snippets[0], term) {
        SubsequenceOfTail(rest, snippets);
      } else {
        assert ([snippets[0]] + rest)[1..] == rest;
      }
    }
  }

  /** A subsequence of the tail is a subsequence of the whole. */
  lemma SubsequenceOfTail<T>(xs: seq<T>, ys: seq<T>)
    requires ys != [] && Subsequence(xs, ys[1..])
    ensures Subsequence(xs, ys)
  {
  }

  /** An empty search keeps every snippet. */
  lemma {:induction false} EmptyTermKeepsAll(snippets: seq<Snippet>)
    ensures FilterUserSnippets(snippets, "") == snippets
    decreases |snippets|
  {
    if snippets != [] {
      EmptyTermKeepsAll(snippets[1..]);
      IncludesEmpty(ToLower(snippets[0].name));
      assert ToLower("") == "";
      assert [snippets[0]] + snippets[1..] == snippets;
    }
  }

  /** The search ignores the case of ASCII letters, in the name and in the term. */
  lemma FilterIgnoresCase(snippets: seq<Snippet>, term: string, term': string)
    requires ToLower(term) == ToLower(term')
    ensures FilterUserSnippets(snippets, term) == FilterUserSnippets(snippets, term')
    decreases |snippets|
  {
  }

  /** What the "Your Snippets" list shows: the matching snippets, or a
      message when there are none. */
  datatype ListView = Items(snippets: seq<Snippet>) | Message(text: string)

  function UserSnippetList(snippets: seq<Snippet>, term: string): (r: ListView)
    ensures r.Message? <==> forall x :: x in snippets ==> !NameMatches(x, term)
    ensures r.Message? ==> (r.text == NOTHING_FOUND <==> term != "")
    ensures r.Message? ==> (r.text == NOTHING_YET <==> term == "")
    ensures r.Items? ==> r.snippets == FilterUserSnippets(snippets, term) && r.snippets != []
  {
    var filtered := FilterUserSnippets(snippets, term);
    if filtered != [] then
      assert filtered[0] in filtered;
      Items(filtered)
    else
      Message(if term != "" then NOTHING_FOUND else NOTHING_YET)
  }

  /** With no search term, "No snippets yet" is shown exactly when the
      user has no snippets. */
  lemma NothingYetMeansEmpty(snippets: seq<Snippet>)
    ensures UserSnippetList(snippets, "") == Message(NOTHING_YET) <==> snippets == []
  {
    EmptyTermKeepsAll(snippets);
  }

  /** `handleCreateNew`: reset the form, then clear the current snippet. */
  function HandleCreateNew(st: State, stamp: string): (r: State)
    ensures r.form == DefaultForm(stamp)
    ensures r.currentSnippet == None
    ensures r.userSnippets == st.userSnippets
  {
    SetCurrentSnippet(ResetForm(st, stamp), None)
  }

  /** `handleSnippetClick`: load the snippet into the form (the navigation to "/" is not modelled). */
  function HandleSnippetClick(st: State, s: Snippet): (r: State)
    ensures r.currentSnippet == Some(s)
    ensures r.form.name == s.name && r.form.content == s.content && r.form.password == ""
  {
    SetCurrentSnippet(st, Some(s))
  }
}
