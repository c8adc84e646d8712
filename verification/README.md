# Many-to-many: authors, magazines and articles

A Dafny model of the three classes of `lib/classes/many_to_many.py`. An `Article` joins
one author to one magazine and carries a title. The class-level list `Article.all` holds
every article ever constructed, in construction order, and it is the only link between the
three classes. Every relationship query (an author's articles, magazines and topic areas;
a magazine's articles, contributors, titles and contributing authors) is a filter or a
fold over that registry.

The model makes the hidden global explicit. A `Registry.State` holds:

- the registry `all`, a sequence of immutable `Article(author, magazine, title)` records;
- the current `(name, category)` of every live magazine, keyed by an opaque magazine id;
- the counter that hands out the next magazine id.

Authors are opaque ids, because the code compares them by identity. Every command
(constructing an article, `add_article`, constructing a magazine, assigning its name or
category) is a pure function from a state to a new state. Every query is a pure function
of the state.

Modules:

- `Wrappers` — `Option`, `Outcome` and `Result`.
- `Seqs` — the sequence machinery the queries are built from:
  - `Filter`, an order-preserving list comprehension;
  - `Image`, a set comprehension;
  - `Tally`, the insertion-ordered counting dictionary of `contributing_authors`;
  - `Subseq` and `FirstAppearanceOrder`, the order predicates that state their contracts.
- `Registry` — the state and article construction.
- `Authors` — the author queries and `add_article`.
- `Magazines` — the magazine constructor, the two validated setters and the magazine queries.
- `Scenarios` — example runs (one author writing a list of titles for one magazine),
  stated over every list of titles and then instantiated.

`contributing_authors` is commented "more than one article", but it keeps the authors
with a count `> 2`. The model follows the code: `Magazines.Threshold` is 2, and
`Magazines.ThresholdBoundary` pins the boundary.

The two setters validate differently. The name setter rejects only a non-string
(`many_to_many.py:58`), so the empty string is a valid name. The category setter rejects a
non-string and then the empty string (`many_to_many.py:68-71`).
`Magazines.ValidationAsymmetry` states the difference.

## Model

| member | source | states |
|---|---|---|
| Registry.EmptyValid | lib/classes/many_to_many.py:3 | The registry starts empty, and the empty state is well formed (`Valid`). |
| Registry.NewArticle | lib/classes/many_to_many.py:5-9 | Constructing an article appends exactly one entry, the new article with the given author, magazine and title, at the end of the registry. Earlier entries and all magazines are untouched. The invariant is kept when the magazine is live. |
| Authors.Articles | lib/classes/many_to_many.py:26-28 | An article is in an author's list iff it is registered and was written by that author. Every element has that author. |
| Authors.ArticlesInRegistryOrder | lib/classes/many_to_many.py:26-28 | The author's list is a subsequence of the registry, in registry order. It holds each of the author's entries as often as the registry does. Any list with these two properties is exactly that list. |
| Authors.ArticlesAfterRegister | lib/classes/many_to_many.py:9 | Registering an article extends its author's list by exactly that article at the end and leaves every other author's list unchanged. |
| Authors.ArticleHasOneAuthor | lib/classes/many_to_many.py:26-28 | A registered article lies in the list of its own author and of no other author. |
| Authors.Magazines | lib/classes/many_to_many.py:30-32 | A magazine is among the author's magazines iff some registered article by the author was written for it. The result is a set, so it has no duplicates. It is empty iff the author has no articles, and it never has more elements than the author has articles. |
| Authors.AddArticle | lib/classes/many_to_many.py:34-37 | `add_article` returns an article by the author for the given magazine and title, appended as the last registry entry. Nothing else in the state changes. |
| Authors.AddArticleQueries | lib/classes/many_to_many.py:34-37 | After `add_article`, the returned article ends the author's list, the magazine joins the author's magazines, and every other author's list is unchanged. |
| Authors.TopicAreas | lib/classes/many_to_many.py:39-42 | `None` iff the author has no magazines, which is iff the author has no articles. Otherwise a category is present iff it is the current category of one of the author's magazines. In a valid state the empty category never appears. |
| Magazines.CheckName | lib/classes/many_to_many.py:56-60 | A name is accepted iff it is a string, the empty string included. A rejected name gives the name error. |
| Magazines.CheckCategory | lib/classes/many_to_many.py:66-72 | A category is accepted iff it is a non-empty string. The non-string check comes first and gives its own error, and the empty string gives the emptiness error. |
| Magazines.ValidationAsymmetry | lib/classes/many_to_many.py:56-72 | The empty string is a valid name but not a valid category. Every valid category is a valid name. |
| Magazines.SetName | lib/classes/many_to_many.py:56-60 | Assigning a name fails iff the value is not a string, and then the state is unchanged. On success only that magazine's name changes: its category, every other magazine and the registry keep their values. The invariant is kept. |
| Magazines.SetCategory | lib/classes/many_to_many.py:66-72 | Assigning a category fails iff the value is not a string or is empty, with the matching error, and then the state is unchanged. On success only that magazine's category changes. The invariant is kept. |
| Magazines.New | lib/classes/many_to_many.py:46-50 | Construction succeeds iff the name is a string and the category a non-empty string. The name is validated first, so its error takes precedence. On success a fresh id maps to the given fields, the registry and the other magazines are untouched, and the invariant is kept. The new magazine has no articles, because its id is above the magazine id of every registered article. |
| Magazines.Articles | lib/classes/many_to_many.py:74-76 | An article is in a magazine's list iff it is registered for that magazine. Every element is for that magazine. |
| Magazines.ArticlesInRegistryOrder | lib/classes/many_to_many.py:74-76 | The magazine's list is a subsequence of the registry with each of its entries' registry multiplicity, and it is the only such list. |
| Magazines.ArticlesAfterRegister | lib/classes/many_to_many.py:74-76 | Registering an article extends its magazine's list by exactly that article and leaves every other magazine's list unchanged. |
| Magazines.ArticleHasOneMagazine | lib/classes/many_to_many.py:74-76 | A registered article lies in the list of its own magazine and of no other magazine. |
| Magazines.Contributors | lib/classes/many_to_many.py:78-80 | An author is a contributor iff some registered article for the magazine is by that author. The result has no duplicates, is empty iff the magazine has no articles, and has at most one contributor per article. |
| Magazines.ArticleTitles | lib/classes/many_to_many.py:82-85 | `None` iff no registered article is for the magazine. Otherwise the k-th title is the title of the magazine's k-th article, in registry order, with one title per article. |
| Magazines.TitlesAfterRegister | lib/classes/many_to_many.py:82-85 | Registering an article for the magazine appends its title to the magazine's titles. An article for another magazine leaves them unchanged. |
| Magazines.ArticleCountSymmetric | lib/classes/many_to_many.py:89-92 | The number of the magazine's articles by an author equals the number of the author's articles for the magazine. |
| Magazines.ArticleCountPositive | lib/classes/many_to_many.py:78-92 | An author's count for a magazine is positive iff the author is a contributor of it. |
| Magazines.AuthorOccurrences | lib/classes/many_to_many.py:89-92 | The number of times an author occurs in the sequence of authors of a list of articles is the number of those articles by that author. |
| Seqs.Tally | lib/classes/many_to_many.py:89-92 | The counting loop: the keys are the distinct elements in order of first appearance, each once, and each count is the element's number of occurrences. |
| Magazines.QualifiedSpec | lib/classes/many_to_many.py:89-95 | The filtered dictionary keys are exactly the authors with more than two articles for the magazine. Each appears once, in order of the author's first article for it. |
| Magazines.ContributingAuthors | lib/classes/many_to_many.py:87-98 | `None` iff no author has more than two articles for the magazine. Otherwise an author is listed iff their count exceeds two. Each is listed once, ordered by the author's first article for the magazine. |
| Magazines.ContributingAuthorsAreContributors | lib/classes/many_to_many.py:78-98 | Every contributing author is a contributor. |
| Magazines.SoleContributingAuthor | lib/classes/many_to_many.py:87-98 | When exactly one author has more than two articles for the magazine, the result is that author alone. |
| Magazines.ThresholdBoundary | lib/classes/many_to_many.py:95 | An author with exactly two articles for the magazine is not a contributing author, and one with three is. |
| Scenarios.PaulMagazines | lib/classes/many_to_many.py:30-37 | An author who has added articles only for one magazine has exactly that magazine. |
| Scenarios.PaulTopics | lib/classes/many_to_many.py:39-42 | That author's topic areas are exactly the magazine's category. |
| Scenarios.PaulTitles | lib/classes/many_to_many.py:82-85 | The magazine's titles are the added titles in the order they were added. |
| Scenarios.PaulContributes | lib/classes/many_to_many.py:87-98 | The sole author of a magazine is its one contributing author iff they wrote more than two articles for it, and there is none otherwise. |
| Scenarios.TwoArticles | lib/classes/many_to_many.py:34-98 | With two articles, "AI Today" and "Quantum Leaps", the topic areas are {"Technology"}, both titles come back in order, and there is no contributing author. |
| Scenarios.ThreeArticles | lib/classes/many_to_many.py:87-98 | With three articles by one author, that author is the one contributing author. |
| Scenarios.AuthorWithoutArticles | lib/classes/many_to_many.py:26-42 | An author without articles has an empty article list, no magazines, and `None` topic areas. |
| Scenarios.MagazineWithoutArticles | lib/classes/many_to_many.py:82-98 | A magazine without articles has `None` titles and `None` contributing authors. |

## Left out

- The class attribute `Article.all` as hidden mutable global state. It is the explicit
  `all` field of `Registry.State`, and every command returns the new state.
- The `Author` constructor and the `name` accessor. Authors are opaque ids, because
  nothing else in the classes depends on an author's name.
- The `Magazine.name` and `Magazine.category` getters are plain field reads of the map
  entry in the state.
- Authors.Magazines: returns a set. The code converts a set to a list, whose order is the
  set's iteration order and depends on hashing, so no order is stated.
- Magazines.Contributors: returns a set for the same reason.
- Authors.TopicAreas: returns a set of categories for the same reason.
- Authors.TopicAreas: requires every magazine the author wrote for to be live, i.e.
  constructed. An article for an object without a `category` attribute makes the code
  raise `AttributeError`, and that path is not modelled.
- Dynamic typing: a value given to a setter is either a string or some non-string
  (`Magazines.Input`). Only the `isinstance(value, str)` test is modelled.
- Raised `ValueError`s are modelled as `Outcome`/`Result` failures, with the state left
  unchanged.
- A magazine whose construction raises after the name was set is never observable in the
  model. On failure, `Magazines.New` returns the error and no magazine.
- Object identity and `__hash__` are modelled by ids. A constructed magazine receives an id
  above the counter and above every magazine id a registered article names, so it never
  shares an id with a live magazine of a well-formed state or with an existing article.
- Two articles with the same author, magazine and title are equal values in the model,
  while in the code they are distinct objects. Lists count them by multiplicity, which the
  order and multiset contracts state, so the query results are unaffected.
- Article fields are not validated, matching the code: any author id, magazine id and
  title is accepted. An article whose magazine is not a constructed `Magazine` is modelled
  by a magazine id that is not live. Such an id may later be named by further articles,
  but it is never given to a constructed magazine that already has articles. Only
  well-formed (`Valid`) states, where every article names a live magazine, are promised to
  match the code for the magazine-side queries and `topic_areas`.
- `Article.author` and `Article.magazine` are plain public attributes in the code
  (`many_to_many.py:6-7`) and can be reassigned after construction, which moves the
  article to another author's or magazine's query results. Only `title` is read-only. The
  model's articles are immutable records, so reassigning either attribute is not modelled.
