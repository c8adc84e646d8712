/** A magazine: the validation of its two assignable fields, its construction, and its
queries over the registry.
 */
module Magazines {
  import opened Wrappers
  import opened Seqs
  import opened Registry
  import Authors

  /** A value assigned to a field: a string or anything else. Only the string check of the
      system is modelled; every non-string value behaves alike. */
  datatype Input = Str(s: string) | NonStr

  /** The three `ValueError` messages of the setters. */
  datatype ValidationError = NameNotString | CategoryNotString | CategoryEmpty

  /** The name rule: every string is accepted, the empty string included. */
  function CheckName(v: Input): (r: Result<string, ValidationError>)
    ensures r.Success? <==> v.Str?
    ensures r.Success? ==> r.value == v.s
    ensures r.Failure? ==> r.error == NameNotString
  {
    if v.NonStr? then Failure(NameNotString) else Success(v.s)
  }

  /** The category rule: a non-string is rejected first, then the empty string. */
  function CheckCategory(v: Input): (r: Result<string, ValidationError>)
    ensures r.Success? <==> v.Str? && v.s != ""
    ensures r.Success? ==> r.value == v.s
    ensures v.NonStr? ==> r == Failure(CategoryNotString)
    ensures v == Str("") ==> r == Failure(CategoryEmpty)
  {
    if v.NonStr? then Failure(CategoryNotString)
    else if v.s == "" then Failure(CategoryEmpty)
    else Success(v.s)
  }

  /** The two rules differ on exactly one input: the empty string is a valid name and an
      invalid category; every valid category is a valid name. */
  lemma ValidationAsymmetry(v: Input)
    ensures CheckCategory(v).Success? ==> CheckName(v).Success?
    ensures CheckName(v).Success? && CheckCategory(v).Failure? <==> v == Str("")
  {
  }

  /** The `name` setter on the live magazine `m`. A rejected value raises and leaves the state
      as it was; an accepted one replaces the name and nothing else. */
  function SetName(st: State, m: MagazineId, v: Input): (r: (State, Outcome<ValidationError>))
    requires m in st.magazines
    ensures r.1.Fail? <==> v.NonStr?
    ensures r.1.Fail? ==> r.0 == st && r.1.error == NameNotString
    ensures r.0.all == st.all && r.0.nextMagazine == st.nextMagazine
    ensures r.0.magazines.Keys == st.magazines.Keys
    ensures r.1.Pass? ==> r.0.magazines[m] == Magazine(v.s, st.magazines[m].category)
    ensures forall k :: k in st.magazines && k != m ==> r.0.magazines[k] == st.magazines[k]
    ensures Valid(st) ==> Valid(r.0)
  {
    match CheckName(v)
    case Failure(e) => (st, Fail(e))
    case Success(name) => (st.(magazines := st.magazines[m := st.magazines[m].(name := name)]), Pass)
  }

  /** The `category` setter on the live magazine `m`. A rejected value raises and leaves the
      state as it was; an accepted one replaces the category and nothing else. */
  function SetCategory(st: State, m: MagazineId, v: Input): (r: (State, Outcome<ValidationError>))
    requires m in st.magazines
    ensures r.1.Fail? <==> v.NonStr? || v == Str("")
    ensures v.NonStr? ==> r.1 == Fail(CategoryNotString)
    ensures v == Str("") ==> r.1 == Fail(CategoryEmpty)
    ensures r.1.Fail? ==> r.0 == st
    ensures r.0.all == st.all && r.0.nextMagazine == st.nextMagazine
    ensures r.0.magazines.Keys == st.magazines.Keys
    ensures r.1.Pass? ==> r.0.magazines[m] == Magazine(st.magazines[m].name, v.s)
    ensures forall k :: k in st.magazines && k != m ==> r.0.magazines[k] == st.magazines[k]
    ensures Valid(st) ==> Valid(r.0)
  {
    match CheckCategory(v)
    case Failure(e) => (st, Fail(e))
    case Success(category) => (st.(magazines := st.magazines[m := st.magazines[m].(category := category)]), Pass)
  }

  /** The constructor: the name is checked before the category, and a failure of either
      creates nothing. On success the magazine gets an id no registered article names, so it
      starts without articles, and the registry is untouched. */
  function New(st: State, name: Input, category: Input): (r: Result<(State, MagazineId), ValidationError>)
    ensures r.Success? <==> name.Str? && category.Str? && category.s != ""
    ensures name.NonStr? ==> r == Failure(NameNotString)
    ensures name.Str? && category.NonStr? ==> r == Failure(CategoryNotString)
    ensures name.Str? && category == Str("") ==> r == Failure(CategoryEmpty)
    ensures r.Success? ==> r.value.0.magazines == st.magazines[r.value.1 := Magazine(name.s, category.s)]
    ensures r.Success? ==> r.value.0.all == st.all
    ensures r.Success? ==> r.value.1 >= st.nextMagazine && r.value.0.nextMagazine == r.value.1 + 1
    ensures r.Success? ==> Articles(r.value.0, r.value.1) == []
    ensures r.Success? && Valid(st) ==> r.value.1 !in st.magazines && Valid(r.value.0)
  {
    match CheckName(name)
    case Failure(e) => Failure(e)
    case Success(n) =>
      match CheckCategory(category)
      case Failure(e) => Failure(e)
      case Success(c) =>
        var id := FreshMagazine(st);
        var st' := st.(magazines := st.magazines[id := Magazine(n, c)], nextMagazine := id + 1);
        FilterNone(st'.all, PublishedIn(id));
        Success((st', id))
  }

  /** The registry test of `articles`: the article was written for `m`. */
  function PublishedIn(m: MagazineId): Article -> bool
  {
    (art: Article) => art.magazine == m
  }

  /** The author of an article. */
  function AuthorOf(art: Article): AuthorId
  {
    art.author
  }

  /** `articles`: the registry entries written for `m`. */
  function Articles(st: State, m: MagazineId): (r: seq<Article>)
    ensures forall i :: 0 <= i < |r| ==> r[i].magazine == m
    ensures forall art :: art in r <==> art in st.all && art.magazine == m
  {
    Filter(st.all, PublishedIn(m))
  }

  /** The list of a magazine's articles keeps registry order and holds each registered entry
      for that magazine exactly as often as the registry does; any list with these two
      properties is that list. */
  lemma ArticlesInRegistryOrder(st: State, m: MagazineId)
    ensures Subseq(Articles(st, m), st.all)
    ensures forall art :: multiset(Articles(st, m))[art] == if art.magazine == m then multiset(st.all)[art] else 0
    ensures forall r: seq<Article> ::
              Subseq(r, st.all) && (forall art :: multiset(r)[art] == if art.magazine == m then multiset(st.all)[art] else 0)
              ==> r == Articles(st, m)
  {
    FilterExact(st.all, PublishedIn(m));
    forall r: seq<Article> | Subseq(r, st.all) && (forall art :: multiset(r)[art] == if art.magazine == m then multiset(st.all)[art] else 0)
      ensures r == Articles(st, m)
    {
      FilterUnique(r, st.all, PublishedIn(m));
    }
  }

  /** Registering one article appends it to its magazine's list and leaves every other
      magazine's list as it was. */
  lemma {:induction false} ArticlesAfterRegister(st: State, art: Article)
    ensures forall m :: Articles(st.(all := st.all + [art]), m)
                     == Articles(st, m) + (if art.magazine == m then [art] else [])
  {
    forall m
      ensures Articles(st.(all := st.all + [art]), m) == Articles(st, m) + (if art.magazine == m then [art] else [])
    {
      FilterSnoc(st.all, art, PublishedIn(m));
    }
  }

  /** An article appears in the list of its own magazine and of no other magazine. */
  lemma ArticleHasOneMagazine(st: State, i: nat, m: MagazineId)
    requires i < |st.all|
    ensures st.all[i] in Articles(st, m) <==> m == st.all[i].magazine
  {
  }

  /** `contributors`: the distinct authors of `m`'s articles, never more of them than
      articles. */
  function Contributors(st: State, m: MagazineId): (r: set<AuthorId>)
    ensures forall a :: a in r <==> exists i :: 0 <= i < |st.all| && st.all[i].magazine == m && st.all[i].author == a
    ensures r == {} <==> Articles(st, m) == []
    ensures |r| <= |Articles(st, m)|
  {
    ImageOfFilter(st.all, PublishedIn(m), AuthorOf);
    Image(Articles(st, m), AuthorOf)
  }

  /** `article_titles`: `None` when `m` has no articles, otherwise one title per article, in
      registry order, repeated titles kept. */
  function ArticleTitles(st: State, m: MagazineId): (r: Option<seq<string>>)
    ensures r.None? <==> Articles(st, m) == []
    ensures r.None? <==> forall i :: 0 <= i < |st.all| ==> st.all[i].magazine != m
    ensures r.Some? ==> |r.value| == |Articles(st, m)|
    ensures r.Some? ==> forall k :: 0 <= k < |r.value| ==> r.value[k] == Articles(st, m)[k].title
  {
    var arts := Articles(st, m);
    assert forall i :: 0 <= i < |st.all| && st.all[i].magazine == m ==> st.all[i] in arts;
    assert |arts| > 0 ==> arts[0] in st.all && arts[0].magazine == m;
    var titles := seq(|arts|, k requires 0 <= k < |arts| => arts[k].title);
    if titles == [] then None else Some(titles)
  }

  /** The titles of `m` with `None` read as no titles. */
  function TitleList(st: State, m: MagazineId): (r: seq<string>)
  {
    match ArticleTitles(st, m)
    case None => []
    case Some(titles) => titles
  }

  /** Registering an article adds its title after all earlier titles of its magazine and
      leaves the titles of every other magazine as they were. */
  lemma TitlesAfterRegister(st: State, art: Article, m: MagazineId)
    ensures art.magazine == m ==> ArticleTitles(st.(all := st.all + [art]), m) == Some(TitleList(st, m) + [art.title])
    ensures art.magazine != m ==> ArticleTitles(st.(all := st.all + [art]), m) == ArticleTitles(st, m)
  {
    ArticlesAfterRegister(st, art);
    var st' := st.(all := st.all + [art]);
    if art.magazine == m {
      assert Articles(st', m) == Articles(st, m) + [art];
      var titles := ArticleTitles(st', m).value;
      assert titles == TitleList(st, m) + [art.title];
    } else {
      assert Articles(st', m) == Articles(st, m);
    }
  }

  /** A magazine's articles must be by one author more than this many times for the author to
      count as a contributing author. */
  const Threshold: nat := 2

  /** The number of `m`'s articles written by `a`. */
  function ArticleCount(st: State, m: MagazineId, a: AuthorId): (r: nat)
  {
    |Filter(Articles(st, m), Authors.WrittenBy(a))|
  }

  /** The count is the same whether taken over the magazine's articles or the author's. */
  lemma ArticleCountSymmetric(st: State, m: MagazineId, a: AuthorId)
    ensures ArticleCount(st, m, a) == |Filter(Authors.Articles(st, a), PublishedIn(m))|
  {
    FilterCommute(st.all, PublishedIn(m), Authors.WrittenBy(a));
  }

  /** An author has an article for `m` exactly when they are among its contributors. */
  lemma ArticleCountPositive(st: State, m: MagazineId, a: AuthorId)
    ensures ArticleCount(st, m, a) > 0 <==> a in Contributors(st, m)
  {
    var arts := Filter(Articles(st, m), Authors.WrittenBy(a));
    if a in Contributors(st, m) {
      var i :| 0 <= i < |st.all| && st.all[i].magazine == m && st.all[i].author == a;
      assert st.all[i] in arts;
    }
    if |arts| > 0 {
      var art := arts[0];
      assert art in Articles(st, m) && art.author == a;
      assert art in st.all;
      var i :| 0 <= i < |st.all| && st.all[i] == art;
    }
  }

  /** The author of each article, in order. */
  function AuthorsOf(arts: seq<Article>): (r: seq<AuthorId>)
  {
    seq(|arts|, k requires 0 <= k < |arts| => arts[k].author)
  }

  /** An author occurs in the author list as often as the articles list holds their articles. */
  lemma {:induction false} AuthorOccurrences(arts: seq<Article>, a: AuthorId)
    ensures multiset(AuthorsOf(arts))[a] == |Filter(arts, Authors.WrittenBy(a))|
  {
    if arts != [] {
      AuthorOccurrences(arts[1..], a);
      assert AuthorsOf(arts) == [arts[0].author] + AuthorsOf(arts[1..]);
    }
  }

  /** Whether a tallied author passes the threshold. */
  function Qualifies(counts: map<AuthorId, nat>): AuthorId -> bool
  {
    (a: AuthorId) => a in counts && counts[a] > Threshold
  }

  /** The computation of `contributing_authors` before the `None` conversion: count each
      author's articles for `m` in one pass, keyed in order of first appearance, then keep the
      authors whose count passes the threshold. */
  function Qualified(st: State, m: MagazineId): (r: seq<AuthorId>)
  {
    var tally := Tally(AuthorsOf(Articles(st, m)));
    Filter(tally.0, Qualifies(tally.1))
  }

  /** The filtered tally holds exactly the authors past the threshold, once each, in order of
      their first article for `m`. */
  lemma QualifiedSpec(st: State, m: MagazineId)
    ensures forall a :: a in Qualified(st, m) <==> ArticleCount(st, m, a) > Threshold
    ensures FirstAppearanceOrder(Qualified(st, m), AuthorsOf(Articles(st, m)))
    ensures forall a :: a in Qualified(st, m) ==> multiset(Qualified(st, m))[a] == 1
  {
    var arts := Articles(st, m);
    var authors := AuthorsOf(arts);
    var tally := Tally(authors);
    var q := Qualified(st, m);
    forall a
      ensures a in q <==> ArticleCount(st, m, a) > Threshold
    {
      AuthorOccurrences(arts, a);
      if ArticleCount(st, m, a) > Threshold {
        assert a in multiset(authors);
      }
    }
    FilterKeepsFirstAppearanceOrder(tally.0, authors, Qualifies(tally.1));
    FilterExact(tally.0, Qualifies(tally.1));
  }

  /** `contributing_authors`: the authors with more than `Threshold` articles for `m`, each once,
      ordered by their first article for `m`; `None` when no author qualifies. */
  function ContributingAuthors(st: State, m: MagazineId): (r: Option<seq<AuthorId>>)
    ensures r.None? <==> forall a :: ArticleCount(st, m, a) <= Threshold
    ensures r.Some? ==> forall a :: a in r.value <==> ArticleCount(st, m, a) > Threshold
    ensures r.Some? ==> FirstAppearanceOrder(r.value, AuthorsOf(Articles(st, m)))
    ensures r.Some? ==> forall a :: a in r.value ==> multiset(r.value)[a] == 1
  {
    var q := Qualified(st, m);
    QualifiedSpec(st, m);
    assert q != [] ==> q[0] in q;
    if q == [] then None else Some(q)
  }

  /** Every contributing author is a contributor. */
  lemma ContributingAuthorsAreContributors(st: State, m: MagazineId)
    ensures ContributingAuthors(st, m).Some? ==> forall a :: a in ContributingAuthors(st, m).value ==> a in Contributors(st, m)
  {
    forall a | ContributingAuthors(st, m).Some? && a in ContributingAuthors(st, m).value
      ensures a in Contributors(st, m)
    {
      ArticleCountPositive(st, m, a);
    }
  }

  /** When a single author passes the threshold, the result is that author alone. */
  lemma SoleContributingAuthor(st: State, m: MagazineId, a: AuthorId)
    requires ArticleCount(st, m, a) > Threshold
    requires forall b :: b != a ==> ArticleCount(st, m, b) <= Threshold
    ensures ContributingAuthors(st, m) == Some([a])
  {
    var r := ContributingAuthors(st, m);
    assert r.Some?;
    var q := r.value;
    assert a in q;
    SingleValue(q, a);
  }

  /** An author with exactly `Threshold` articles for `m` is never a contributing author, and
      one with a single article more always is. */
  lemma ThresholdBoundary(st: State, m: MagazineId, a: AuthorId)
    ensures ArticleCount(st, m, a) == Threshold ==>
              ContributingAuthors(st, m).None? || a !in ContributingAuthors(st, m).value
    ensures ArticleCount(st, m, a) == Threshold + 1 ==>
              ContributingAuthors(st, m).Some? && a in ContributingAuthors(st, m).value
  {
  }
}
