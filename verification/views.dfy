/**
 * The decisions the wiki's views take, as functions of the request and of a
 * snapshot of the entry store: the title list that `list_entries` returns and
 * the exact-case map from title to body that `get_entry` reads.
 */
module Views {
  import opened Wrappers
  import opened Text
  import opened Newlines
  import opened Filtering

  /** Where a redirect goes: the index page or the display page of one title. */
  datatype Target = Home | Article(name: string)

  /** The templates a view renders, with their context. */
  datatype Page =
    | DisplayView(title: string, html: string)
    | SearchResults(query: string, articles: seq<string>)
    | EditForm(title: string, current: Option<string>)
    | NewForm(title: string, article: string)

  /** Ways a view fails instead of answering. */
  datatype Fault =
    | MissingKey(key: string)         // a POST field read with `request.POST[key]` is absent
    | EmptyRange                      // `random.randrange(0)` raises
    | UnboundLocal(variable: string)  // a local read before any assignment
    | NoneReturned                    // the view returns no response at all
    | NoReverseMatch                  // `reverse` finds no URL for the title

  /** A response; `notice` is the flash message added before it is produced. */
  datatype Response =
    | Redirect(to: Target, notice: Option<string>)
    | Render(page: Page, notice: Option<string>)
    | Failed(fault: Fault)

  /** A request: whether it is a POST, and the submitted form fields. */
  datatype Request = Request(isPost: bool, form: map<string, string>)

  const NoResponsiveArticles: string := "The Wiki doesn't have any responsive articles"
  const EditSaved: string := "Edit saved"
  const ArticleSaved: string := "Article saved"
  const ArticleExists: string := "That article exists and can't be added"

  function MissingArticle(name: string): (r: string)
    ensures |r| > |name| && r[|r| - |name|..] == name
  {
    "The Wiki doesn't have an article titled " + name
  }

  /**
   * A title the route `wiki/<str:name>` can carry: the `str` path converter
   * matches one or more characters other than `/`.
   */
  predicate Routable(name: string)
  {
    name != "" && '/' !in name
  }

  /**
   * `HttpResponseRedirect(reverse("encyclopedia:display_page", kwargs={'name': name}))`:
   * a redirect to the display page of `name`, or, when the route cannot carry
   * `name`, the `NoReverseMatch` that `reverse` raises.
   */
  function ArticleRedirect(name: string, notice: Option<string>): (r: Response)
    ensures r.Redirect? <==> Routable(name)
    ensures r.Redirect? ==> r.to == Article(name) && r.notice == notice
    ensures !r.Redirect? ==> r == Failed(NoReverseMatch)
  {
    if Routable(name) then Redirect(Article(name), notice) else Failed(NoReverseMatch)
  }

  // ---------------------------------------------------------------- search

  /**
   * `query.lower() in title.lower()`. An empty query matches every title, a
   * query longer than the title matches none, and every case variant of the
   * title matches it.
   */
  predicate MatchesQuery(title: string, query: string)
    ensures query == "" ==> MatchesQuery(title, query)
    ensures MatchesQuery(title, query) ==> |query| <= |title|
    ensures EqualIgnoreCase(title, query) ==> MatchesQuery(title, query)
  {
    assert EqualIgnoreCase(title, query) ==> OccursAt(Lower(title), Lower(query), 0);
    Contains(Lower(title), Lower(query))
  }

  /** The titles a search for `query` responds with, in list order. */
  function SearchMatches(titles: seq<string>, query: string): (r: seq<string>)
    ensures forall t :: t in r <==> t in titles && MatchesQuery(t, query)
  {
    Filter(titles, t => MatchesQuery(t, query))
  }

  /** Each matching title appears as often as in the list, every other title never. */
  lemma SearchMatchesMultiplicity(titles: seq<string>, query: string, t: string)
    ensures multiset(SearchMatches(titles, query))[t] == if MatchesQuery(t, query) then multiset(titles)[t] else 0
  {
    FilterMultiplicity(titles, t => MatchesQuery(t, query), t);
  }

  /** The search keeps list order: it distributes over concatenation. */
  lemma SearchMatchesAppend(a: seq<string>, b: seq<string>, query: string)
    ensures SearchMatches(a + b, query) == SearchMatches(a, query) + SearchMatches(b, query)
  {
    FilterAppend(a, b, t => MatchesQuery(t, query));
  }

  /** An empty query matches every title, so the whole list comes back. */
  lemma EmptyQueryMatchesAll(titles: seq<string>)
    ensures SearchMatches(titles, "") == titles
  {
    forall i | 0 <= i < |titles|
      ensures MatchesQuery(titles[i], "")
    {
      assert OccursAt(Lower(titles[i]), Lower(""), 0);
    }
    FilterAll(titles, t => MatchesQuery(t, ""));
  }

  /**
   * The search view. A request that is not a POST goes home without looking at
   * the store; otherwise the outcome depends only on the number of matches:
   * none sends home with a notice, a single one goes straight to that stored
   * title (if the route can carry it), two or more render the list together
   * with the query. The first
   * group of clauses says the same in terms of the listing itself.
   */
  function Search(req: Request, titles: seq<string>): (r: Response)
    ensures !req.isPost ==> r == Redirect(Home, None)
    ensures req.isPost && "q" !in req.form ==> r == Failed(MissingKey("q"))
    ensures req.isPost && "q" in req.form ==>
      var q := req.form["q"];
      && (r.Redirect? || r.Render? || r == Failed(NoReverseMatch))
      && (r == Redirect(Home, Some(NoResponsiveArticles)) <==> forall t :: t in titles ==> !MatchesQuery(t, q))
      && (r.Redirect? && r.to.Article? ==>
            && r.notice == None
            && r.to.name in titles && MatchesQuery(r.to.name, q)
            && forall t :: t in titles && MatchesQuery(t, q) ==> t == r.to.name)
      && (r.Render? ==> r == Render(SearchResults(q, SearchMatches(titles, q)), None)
                        && |SearchMatches(titles, q)| >= 2)
    ensures req.isPost && "q" in req.form ==>
      var q := req.form["q"];
      var m := SearchMatches(titles, q);
      && (|m| == 0 ==> r == Redirect(Home, Some(NoResponsiveArticles)))
      && (|m| == 1 ==> r == ArticleRedirect(m[0], None))
      && (r == Failed(NoReverseMatch) ==> |m| == 1 && !Routable(m[0]))
      && (|m| >= 2 ==> r == Render(SearchResults(q, m), None))
  {
    if !req.isPost then Redirect(Home, None)
    else if "q" !in req.form then Failed(MissingKey("q"))
    else
      var q := req.form["q"];
      var found := SearchMatches(titles, q);
      if |found| == 0 then
        assert forall t :: t in titles ==> !MatchesQuery(t, q);
        Redirect(Home, Some(NoResponsiveArticles))
      else
        assert found[0] in found;
        if |found| == 1 then
          assert forall t :: t in titles && MatchesQuery(t, q) ==> t == found[0];
          ArticleRedirect(found[0], None)
        else Render(SearchResults(q, found), None)
  }

  /** With distinct titles, a title that is the only match is a direct hit. */
  lemma SearchDirectHit(req: Request, titles: seq<string>, t: string)
    requires req.isPost && "q" in req.form
    requires Distinct(titles)
    requires t in titles && MatchesQuery(t, req.form["q"])
    requires forall u :: u in titles && MatchesQuery(u, req.form["q"]) ==> u == t
    ensures Search(req, titles) == ArticleRedirect(t, None)
  {
    var found := SearchMatches(titles, req.form["q"]);
    FilterDistinct(titles, u => MatchesQuery(u, req.form["q"]));
    SingletonOfDistinct(found, t);
  }

  // ------------------------------------------------------ duplicate check

  /** The titles equal to `name` ignoring case: `name.lower() == title.lower()`. */
  function CaseMatches(titles: seq<string>, name: string): (r: seq<string>)
    ensures forall t :: t in r <==> t in titles && EqualIgnoreCase(name, t)
    ensures |r| == 0 <==> forall t :: t in titles ==> !EqualIgnoreCase(name, t)
  {
    var r := Filter(titles, t => EqualIgnoreCase(name, t));
    assert r != [] ==> r[0] in r;
    r
  }

  /** No two stored titles differ only in case. */
  predicate CaseUnique(entries: map<string, string>)
  {
    forall a, b :: a in entries && b in entries && EqualIgnoreCase(a, b) ==> a == b
  }

  /** Helper for the case-variant examples: two stored titles that differ only in case break uniqueness. */
  lemma CaseVariantsNotUnique(entries: map<string, string>, a: string, b: string)
    requires a in entries && b in entries && a != b && EqualIgnoreCase(a, b)
    ensures !CaseUnique(entries)
  {
  }

  /**
   * Writing `name` keeps titles unique up to case exactly when `name` is
   * already stored under that exact case or no stored title equals it up to
   * case. The new-article view saves only in the second situation; the edit
   * view saves in every situation.
   */
  lemma SaveKeepsCaseUniqueIff(entries: map<string, string>, name: string, body: string)
    requires CaseUnique(entries)
    ensures CaseUnique(entries[name := body]) <==>
              name in entries || forall t :: t in entries ==> !EqualIgnoreCase(name, t)
  {
    var after := entries[name := body];
    if !(name in entries || forall t :: t in entries ==> !EqualIgnoreCase(name, t)) {
      var t :| t in entries && EqualIgnoreCase(name, t);
      assert t in after && name in after && t != name;
    }
  }

  /** Helper for the case-variant examples: "python" and "Python" are different titles, equal up to case. */
  lemma PythonIsCaseVariant()
    ensures "python" != "Python" && EqualIgnoreCase("python", "Python")
  {
    assert "python"[0] != "Python"[0];
    assert Lower("python") == "python" == Lower("Python");
  }

  /** A concrete case: a store holding "Python" edited at "python". */
  lemma EditAddsCaseVariant()
    ensures CaseUnique(map["Python" := "A language."])
    ensures !CaseUnique(map["Python" := "A language.", "python" := "A snake."])
  {
    PythonIsCaseVariant();
    CaseVariantsNotUnique(map["Python" := "A language.", "python" := "A snake."], "python", "Python");
  }

  // ---------------------------------------------------------- random page

  /**
   * The random-page view, with the draw of `random.randrange(len(titles))`
   * given as `pick`: an empty list leaves no index to draw, and a drawn title
   * the route cannot carry makes `reverse` raise.
   */
  function RandomPage(titles: seq<string>, pick: nat): (r: Response)
    requires |titles| > 0 ==> pick < |titles|
    ensures r == Failed(EmptyRange) <==> |titles| == 0
    ensures r.Redirect? ==> r.to.Article? && r.to.name in titles && r.notice == None
    ensures r == Failed(NoReverseMatch) ==> exists t :: t in titles && !Routable(t)
    ensures r.Redirect? || r == Failed(EmptyRange) || r == Failed(NoReverseMatch)
  {
    if |titles| == 0 then Failed(EmptyRange) else ArticleRedirect(titles[pick], None)
  }

  /** Every listed title is the target of some draw (a draw that reaches `reverse` with it). */
  lemma RandomPageReachesAll(titles: seq<string>, t: string)
    requires t in titles
    ensures exists pick: nat :: pick < |titles| && RandomPage(titles, pick) == ArticleRedirect(t, None)
  {
    var i :| 0 <= i < |titles| && titles[i] == t;
    assert RandomPage(titles, i) == ArticleRedirect(t, None);
  }

  // --------------------------------------------------------- display page

  /** `get_entry(name)`: exact-case lookup, absent when nothing is stored under `name`. */
  function GetEntry(entries: map<string, string>, name: string): (r: Option<string>)
    ensures r.Some? <==> name in entries
    ensures r.Some? ==> r.value == entries[name]
  {
    if name in entries then Some(entries[name]) else None
  }

  /**
   * The display view: a missing body and an empty body both send home with a
   * notice naming the requested title; any other body is shown, rendered by
   * `render` (the markup renderer), under the requested name.
   */
  function DisplayPage(entries: map<string, string>, name: string, render: string -> string): (r: Response)
    ensures r.Render? <==> name in entries && entries[name] != ""
    ensures r.Render? ==> r == Render(DisplayView(name, render(entries[name])), None)
    ensures !r.Render? ==> r == Redirect(Home, Some(MissingArticle(name)))
  {
    var article := GetEntry(entries, name);
    if article.None? || article.value == "" then Redirect(Home, Some(MissingArticle(name)))
    else Render(DisplayView(name, render(article.value)), None)
  }

  /** A non-blank body saved under `name` is what the display view shows for `name`. */
  lemma SavedBodyIsDisplayed(entries: map<string, string>, name: string, text: string, render: string -> string)
    requires text != ""
    ensures DisplayPage(entries[name := NormalizeNewlines(text)], name, render)
            == Render(DisplayView(name, render(NormalizeNewlines(text))), None)
  {
    NormalizeBlank(text);
  }

  /** Lookup is case-sensitive: a case variant of a stored title is not found. */
  lemma DisplayIsCaseSensitive(render: string -> string)
    ensures DisplayPage(map["Python" := "A language."], "python", render)
            == Redirect(Home, Some(MissingArticle("python")))
  {
    assert "python" != "Python" by { assert "python"[0] != "Python"[0]; }
  }
}
