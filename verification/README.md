# A verified model of the encyclopedia views of a minimal wiki

The wiki keeps articles in an entry store: a body of markup text for each title.
Its views list the titles, show one article, search titles, pick a random
article, create a new article and edit an existing one. This project models the
decisions those views take (`encyclopedia/views.py`) and proves what they
guarantee about the store.

- `text.dfy` (module `Text`): the Python string operations the views use:
  `lower()` over ASCII, the substring test `q in t` and `replace`. Python's
  `find` (`FindFrom`) is a helper that `replace` is defined with, and a
  character count (`CountChar`) is a helper for stating what `replace` keeps.
- `newlines.dfy` (module `Newlines`): the line-ending normalisation
  `text.replace('\r\n', '\n')` applied before every save. It is defined as
  Python's `replace` and proved equal to a left-to-right scanner; its length,
  character-count and non-idempotence properties are proved through the scanner.
- `filtering.dfy` (module `Filtering`): the list comprehension
  `[t for t in titles if p(t)]` with membership, multiplicity, order and
  distinctness lemmas.
- `views.dfy` (module `Views`): responses as data (`Redirect` with a target and
  an optional notice, `Render` with a page, `Failed` with a fault), and the
  read-only views as functions of the request and a snapshot of the store:
  `Search`, `RandomPage`, `DisplayPage`, the duplicate filter `CaseMatches`,
  and uniqueness of titles up to case (`CaseUnique`).
- `wiki.dfy` (module `Wiki`): class `Wiki` holding the store, an exact-case
  map `entries` from title to body and the list `titles` that `list_entries`
  returns. `Valid()` says the list holds every stored title exactly once. The
  methods `SaveEntry`, `New` and `Edit` state the whole new store. `New` is
  proved to preserve uniqueness up to case. `Edit` is proved to preserve it
  exactly when it writes an already stored title or a title with no case
  variant. Two client methods replay the asymmetry: `new` refuses "python"
  once "Python" is stored, and `edit` stores it. A third shows `new` saving an
  empty title and then failing to redirect to it.

Behaviour of the views worth noting:
- The `util` module behind `save_entry` is not part of this model. `SaveEntry`
  is modelled as a plain write, and the model applies the line-ending
  normalisation exactly where the views apply it, before the call
  (encyclopedia/views.py:86 and :117). Because normalisation is not idempotent,
  a second normalisation inside the store would change what is stored
  (`\r\r\n` would become `\n` rather than `\r\n`); the model does not assume one.
- A blank edit submission does not re-render the form. The view falls through
  and returns nothing, modelled as `Failed(NoneReturned)`.
- An empty store is not handled by the random-page view. `randrange(0)` raises,
  modelled as `Failed(EmptyRange)`.
- A new-article POST lacking a form field reaches the final render with `name`
  never assigned, modelled as `Failed(UnboundLocal("name"))`.
- A redirect to an article goes through `reverse`, which raises when the
  route `wiki/<str:name>` cannot carry the title: an empty title or one
  containing `/` (encyclopedia/urls.py:12). The new-article view accepts such
  a title, saves it, and then fails with `Failed(NoReverseMatch)`. A search
  or random pick that lands on such a stored title fails the same way.
- A POST field read by subscript (`q` in search, `myedit` in edit) that is
  absent raises, modelled as `Failed(MissingKey(..))`.

## Model

| member | source | states |
|---|---|---|
| `Views.SearchMatches` | encyclopedia/views.py:49-50 | a title is in the result exactly when it is listed and its lower-case form contains the lower-case query |
| `Views.SearchMatchesMultiplicity` | encyclopedia/views.py:50 | every matching title occurs in the result as often as in the listing; no other title occurs |
| `Views.SearchMatchesAppend` | encyclopedia/views.py:50 | searching a concatenated listing gives the two results in listing order |
| `Views.EmptyQueryMatchesAll` | encyclopedia/views.py:50 | an empty query returns the whole listing unchanged |
| `Views.Search` | encyclopedia/views.py:47-65 | a non-POST goes home with no notice and ignores the store; a POST without `q` fails; by the number of matches: none goes home with the "no responsive articles" notice, exactly one redirects to that stored title (or fails in `reverse` when the route cannot carry it), two or more render the query with the full match list; in terms of the listing, home-with-notice happens exactly when no listed title matches, and a direct hit targets a listed matching title that every match equals |
| `Views.SearchDirectHit` | encyclopedia/views.py:55-57 | with distinct titles, a title that is the only match is redirected to directly |
| `Views.ArticleRedirect` | encyclopedia/views.py:56-57 | the redirect reaches the display page of the title exactly when the route can carry it (non-empty, no `/`), keeping the notice; otherwise `reverse` raises |
| `Views.CaseMatches` | encyclopedia/views.py:111-112 | the result holds exactly the listed titles equal to the name ignoring case, and is empty exactly when no listed title is |
| `Views.SaveKeepsCaseUniqueIff` | encyclopedia/views.py:111-117 | from a store unique up to case, writing a title keeps it unique exactly when the title is stored in that exact case or has no stored case variant |
| `Views.EditAddsCaseVariant` | encyclopedia/views.py:86 | a store holding only "Python" is unique up to case, and adding "python" makes it not unique |
| `Views.RandomPage` | encyclopedia/views.py:72-75 | an empty listing fails with no index to draw, and only then; a redirect targets a listed title with no notice; a failure in `reverse` means some listed title cannot be routed |
| `Views.RandomPageReachesAll` | encyclopedia/views.py:73-75 | every listed title is what `reverse` receives for some admissible draw |
| `Views.GetEntry` | encyclopedia/views.py:26 | the lookup finds a body exactly when that exact title is stored, and it is the stored body |
| `Views.DisplayPage` | encyclopedia/views.py:26-38 | the page is shown exactly when the exact title is stored with a non-empty body, rendered under the requested name; otherwise home with a notice naming the title |
| `Views.SavedBodyIsDisplayed` | encyclopedia/views.py:86 | after a non-blank text is saved under a title, displaying that title shows the normalised text |
| `Views.DisplayIsCaseSensitive` | encyclopedia/views.py:26 | "python" is not found when only "Python" is stored |
| `Text.Lower` | encyclopedia/views.py:50 | same length; each character is lower-cased, ASCII capitals becoming small letters and every other character kept; no capital remains |
| `Text.Contains` | encyclopedia/views.py:50 | `pat in s` holds exactly when `find` locates `pat`; the empty string is in every string; a contained pattern is no longer than the string |
| `Text.EqualIgnoreCase` | encyclopedia/views.py:112 | two names are equal ignoring case exactly when they have the same length and agree position by position after lower-casing |
| `Views.MatchesQuery` | encyclopedia/views.py:50 | an empty query matches every title, a matching query is no longer than the title, and a title matches each of its case variants |
| `Filtering.Filter` | encyclopedia/views.py:50 | the comprehension keeps exactly the listed elements that pass the test and is never longer than the listing |
| `Newlines.NormalizeNewlines` | encyclopedia/views.py:86 | the normalised body is never longer, and a body without `\r\n` is stored as it is |
| `Text.Replace` | encyclopedia/views.py:86 | replacing by a shorter string leaves a text without the pattern unchanged, shortens exactly the texts that contain it, and never lengthens |
| `Newlines.NormalizeIsScan` | encyclopedia/views.py:86 | `replace('\r\n', '\n')` equals the left-to-right scan that drops each `\r` directly followed by `\n` |
| `Newlines.NormalizeCounts` | encyclopedia/views.py:86 | normalisation never lengthens, keeps the number of `\n` and of every character other than `\r`, and removes exactly as many `\r` as characters |
| `Newlines.NormalizeUnchangedIff` | encyclopedia/views.py:117 | a body is stored unchanged exactly when it holds no `\r\n`, and strictly shorter exactly when it does |
| `Newlines.NormalizeBlank` | encyclopedia/views.py:83-86 | a text is blank after normalisation exactly when it was blank before |
| `Newlines.NormalizeNotIdempotent` | encyclopedia/views.py:86 | `\r\r\n` normalises to `\r\n`, which normalises again to `\n` |
| `Wiki.Wiki.SaveEntry` | encyclopedia/views.py:86 | the entry under exactly that title becomes the body, every other entry is unchanged, and the listing still holds each stored title once (in an unspecified order) |
| `Wiki.Wiki.New` | encyclopedia/views.py:101-132 | a GET shows an empty form; a POST lacking a field fails; a title equal to a stored one ignoring case leaves the store unchanged and re-shows the submitted values with the duplicate notice; otherwise the normalised body is stored under the exact title, nothing else changes, and the view redirects to it, or fails in `reverse` after saving when the route cannot carry the title; uniqueness up to case is preserved |
| `Wiki.Wiki.Edit` | encyclopedia/views.py:78-98 | a GET shows the form with the exact-case lookup; a POST without `myedit` fails; a blank text saves nothing and returns nothing; a non-blank text is stored normalised under exactly that title, whether or not it or a case variant exists, then the view redirects to it (failing in `reverse` if the route cannot carry the title); uniqueness survives exactly when the title was stored or has no case variant |

## Left out

- The index view (encyclopedia/views.py:12-18) only renders the listing; it takes no decision.
- `encyclopedia/urls.py` is a routing table and is not part of this model.
- The storage behind `list_entries`, `get_entry` and `save_entry` (the `util` module) is not part of this model. The store is a map from exact-case title to body plus a listing in unspecified order.
- Concurrent writers to the same title are not modelled; the model is sequential.
- Markup rendering (`markdown2.markdown`) is a function parameter `render`, applied to the stored body.
- `random.randrange` is replaced by the drawn index `pick`, which must lie in range when the listing is non-empty. Uniformity of the draw is a probabilistic claim and is not modelled.
- `str.lower` is modelled on ASCII letters only; Unicode case mapping is not modelled.
- Django glue is reduced to data. `reverse` becomes a `Target`, or `Failed(NoReverseMatch)` for a title the route cannot carry; `messages.add_message` becomes the response's notice; templates become `Page` values. What the framework makes of a raised exception or a missing response is not modelled. URL quoting of other characters by `reverse` is not modelled.
- Text.Replace: requires a non-empty pattern. Python's `replace` with an empty pattern inserts between characters, but the views only replace `\r\n`.
