/**
 * The two views that write to the entry store. The store keeps, for each
 * title in exact case, the article body; `titles` is what `list_entries`
 * returns, every stored title once, in no particular order.
 */
module Wiki {
  import opened Wrappers
  import opened Text
  import opened Newlines
  import opened Filtering
  import opened Views

  /** Both fields the new-article form submits are present. */
  predicate HasNewArticleFields(req: Request)
  {
    "myedit" in req.form && "title" in req.form
  }

  class Wiki {
    var entries: map<string, string>
    var titles: seq<string>

    /** `titles` lists exactly the stored titles, each once. */
    ghost predicate Valid()
      reads this
    {
      && Distinct(titles)
      && forall t :: t in titles <==> t in entries
    }

    /** An empty store. */
    constructor ()
      ensures Valid() && entries == map[] && titles == []
    {
      entries := map[];
      titles := [];
    }

    /**
     * `save_entry(name, body)`: creates or overwrites the entry stored under
     * exactly `name`; no other entry changes.
     */
    method SaveEntry(name: string, body: string)
      requires Valid()
      modifies this
      ensures Valid()
      ensures entries == old(entries)[name := body]
    {
      if name !in entries {
        titles := titles + [name];
      }
      entries := entries[name := body];
    }

    /**
     * The new-article view. A GET shows an empty form. A POST with both fields
     * saves the normalised body under the submitted title, unless some stored
     * title equals it ignoring case; then nothing is saved and the form is shown
     * again with the submitted values and a notice. After a save, the redirect
     * to the new title fails when the route cannot carry that title, but the
     * entry stays saved. A POST lacking a field reaches the form with `name`
     * never assigned.
     */
    method New(req: Request) returns (r: Response)
      requires Valid()
      modifies this
      ensures Valid()
      ensures !req.isPost ==> unchanged(this) && r == Render(NewForm("", ""), None)
      ensures req.isPost && !HasNewArticleFields(req) ==>
                unchanged(this) && r == Failed(UnboundLocal("name"))
      ensures req.isPost && HasNewArticleFields(req) ==>
                var name, article := req.form["title"], req.form["myedit"];
                if exists t :: t in old(entries) && EqualIgnoreCase(name, t) then
                  unchanged(this) && r == Render(NewForm(name, article), Some(ArticleExists))
                else
                  entries == old(entries)[name := NormalizeNewlines(article)]
                  && r == ArticleRedirect(name, Some(ArticleSaved))
      ensures CaseUnique(old(entries)) ==> CaseUnique(entries)
    {
      if !req.isPost {
        r := Render(NewForm("", ""), None);
      } else if HasNewArticleFields(req) {
        var article := req.form["myedit"];
        var name := req.form["title"];
        var sameName := CaseMatches(titles, name);
        if |sameName| == 0 {
          ghost var before := entries;
          SaveEntry(name, NormalizeNewlines(article));
          if CaseUnique(before) {
            SaveKeepsCaseUniqueIff(before, name, NormalizeNewlines(article));
          }
          r := ArticleRedirect(name, Some(ArticleSaved));
        } else {
          r := Render(NewForm(name, article), Some(ArticleExists));
        }
      } else {
        r := Failed(UnboundLocal("name"));
      }
    }

    /**
     * The edit view for the title `name`. A GET shows the form with whatever is
     * stored under exactly `name`. A POST with a non-blank text saves it,
     * normalised, under exactly `name`, whether or not that title or a case
     * variant of it is stored, then redirects to it; a blank text saves nothing
     * and the view answers nothing.
     */
    method Edit(name: string, req: Request) returns (r: Response)
      requires Valid()
      modifies this
      ensures Valid()
      ensures !req.isPost ==>
                unchanged(this) && r == Render(EditForm(name, GetEntry(entries, name)), None)
      ensures req.isPost && "myedit" !in req.form ==>
                unchanged(this) && r == Failed(MissingKey("myedit"))
      ensures req.isPost && "myedit" in req.form && req.form["myedit"] == "" ==>
                unchanged(this) && r == Failed(NoneReturned)
      ensures req.isPost && "myedit" in req.form && req.form["myedit"] != "" ==>
                && entries == old(entries)[name := NormalizeNewlines(req.form["myedit"])]
                && r == ArticleRedirect(name, Some(EditSaved))
      ensures CaseUnique(old(entries)) ==>
                (CaseUnique(entries) <==>
                   entries == old(entries) || name in old(entries)
                   || forall t :: t in old(entries) ==> !EqualIgnoreCase(name, t))
    {
      if req.isPost {
        if "myedit" !in req.form {
          r := Failed(MissingKey("myedit"));
        } else if req.form["myedit"] != "" {
          ghost var before := entries;
          SaveEntry(name, NormalizeNewlines(req.form["myedit"]));
          if CaseUnique(before) {
            SaveKeepsCaseUniqueIff(before, name, NormalizeNewlines(req.form["myedit"]));
          }
          r := ArticleRedirect(name, Some(EditSaved));
        } else {
          r := Failed(NoneReturned);
        }
      } else {
        r := Render(EditForm(name, GetEntry(entries, name)), None);
      }
    }
  }

  /** The new-article view refuses "python" once "Python" is stored. */
  method NewRefusesCaseVariant()
  {
    var wiki := new Wiki();
    wiki.SaveEntry("Python", "A language.");
    PythonIsCaseVariant();
    var r := wiki.New(Request(true, map["title" := "python", "myedit" := "A snake."]));
    assert r == Render(NewForm("python", "A snake."), Some(ArticleExists));
    assert wiki.entries == map["Python" := "A language."];
  }

  /** The edit view stores "python" next to "Python", breaking uniqueness up to case. */
  method EditAcceptsCaseVariant()
  {
    var wiki := new Wiki();
    wiki.SaveEntry("Python", "A language.");
    var r := wiki.Edit("python", Request(true, map["myedit" := "A snake."]));
    assert r == ArticleRedirect("python", Some(EditSaved));
    PythonIsCaseVariant();
    CaseVariantsNotUnique(wiki.entries, "python", "Python");
  }

  /** An empty title passes the duplicate check and is saved, then `reverse` raises. */
  method NewSavesUnroutableTitle()
  {
    var wiki := new Wiki();
    var r := wiki.New(Request(true, map["title" := "", "myedit" := ""]));
    NormalizeBlank("");
    assert r == Failed(NoReverseMatch);
    assert wiki.entries == map["" := ""];
  }
}
