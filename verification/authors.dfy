/** The queries and the one command of an author. Every query is a filter or fold over the
registry; an author holds no back-references of its own.
 */
module Authors {
  import opened Wrappers
  import opened Seqs
  import opened Registry

  /** The registry test of `articles`: the article was written by `a`. */
  function WrittenBy(a: AuthorId): Article -> bool
  {
    (art: Article) => art.author == a
  }

  /** The magazine an article was written for. */
  function MagazineOf(art: Article): MagazineId
  {
    art.magazine
  }

  /** `articles`: the registry entries written by `a`. */
  function Articles(st: State, a: AuthorId): (r: seq<Article>)
    ensures forall i :: 0 <= i < |r| ==> r[i].author == a
    ensures forall art :: art in r <==> art in st.all && art.author == a
  {
    Filter(st.all, WrittenBy(a))
  }

  /** The list of an author's articles keeps registry order and holds each registered entry
      of that author exactly as often as the registry does; any list with these two
      properties is that list. */
  lemma ArticlesInRegistryOrder(st: State, a: AuthorId)
    ensures Subseq(Articles(st, a), st.all)
    ensures forall art :: multiset(Articles(st, a))[art] == if art.author == a then multiset(st.all)[art] else 0
    ensures forall r: seq<Article> ::
              Subseq(r, st.all) && (forall art :: multiset(r)[art] == if art.author == a then multiset(st.all)[art] else 0)
              ==> r == Articles(st, a)
  {
    FilterExact(st.all, WrittenBy(a));
    forall r: seq<Article> | Subseq(r, st.all) && (forall art :: multiset(r)[art] == if art.author == a then multiset(st.all)[art] else 0)
      ensures r == Articles(st, a)
    {
      FilterUnique(r, st.all, WrittenBy(a));
    }
  }

  /** `magazines`: the distinct magazines `a` has written for, never more of them than
      articles. */
  function Magazines(st: State, a: AuthorId): (r: set<MagazineId>)
    ensures forall m :: m in r <==> exists i :: 0 <= i < |st.all| && st.all[i].author == a && st.all[i].magazine == m
    ensures r == {} <==> Articles(st, a) == []
    ensures |r| <= |Articles(st, a)|
  {
    ImageOfFilter(st.all, WrittenBy(a), MagazineOf);
    Image(Articles(st, a), MagazineOf)
  }

  /** Registering one article appends it to its author's list and leaves every other
      author's list as it was. */
  lemma {:induction false} ArticlesAfterRegister(st: State, art: Article)
    ensures forall b :: Articles(st.(all := st.all + [art]), b)
                     == Articles(st, b) + (if art.author == b then [art] else [])
  {
    forall b
      ensures Articles(st.(all := st.all + [art]), b) == Articles(st, b) + (if art.author == b then [art] else [])
    {
      FilterSnoc(st.all, art, WrittenBy(b));
    }
  }

  /** `add_article`: constructs and registers an article by `self` and returns it; the article
      lands at the end of the registry and nothing else changes. */
  function AddArticle(st: State, self: AuthorId, magazine: MagazineId, title: string): (r: (State, Article))
    ensures |r.0.all| == |st.all| + 1 && r.0.all[..|st.all|] == st.all && r.0.all[|st.all|] == r.1
    ensures r.1.author == self && r.1.magazine == magazine && r.1.title == title
    ensures r.0.magazines == st.magazines && r.0.nextMagazine == st.nextMagazine
    ensures Valid(st) && magazine in st.magazines ==> Valid(r.0)
  {
    NewArticle(st, self, magazine, title)
  }

  /** What `add_article` does to the author queries: the new article ends `self`'s article
      list, its magazine joins `self`'s magazines, and every other author is unaffected. */
  lemma AddArticleQueries(st: State, self: AuthorId, magazine: MagazineId, title: string)
    ensures var (st', article) := AddArticle(st, self, magazine, title);
      && Articles(st', self) == Articles(st, self) + [article]
      && (forall b :: b != self ==> Articles(st', b) == Articles(st, b))
      && Magazines(st', self) == Magazines(st, self) + {magazine}
  {
    var (st', article) := AddArticle(st, self, magazine, title);
    assert st'.all == st.all + [article];
    assert st' == st.(all := st.all + [article]);
    ArticlesAfterRegister(st, article);
    ImageAppend(Articles(st, self), [article], MagazineOf);
  }

  /** `topic_areas`: `None` when the author has no magazines, otherwise the distinct current
      categories of those magazines. */
  function TopicAreas(st: State, a: AuthorId): (r: Option<set<string>>)
    requires Magazines(st, a) <= st.magazines.Keys
    ensures r.None? <==> Magazines(st, a) == {}
    ensures r.None? <==> Articles(st, a) == []
    ensures r.Some? ==> forall c :: c in r.value <==> exists m :: m in Magazines(st, a) && st.magazines[m].category == c
    ensures r.Some? && Valid(st) ==> "" !in r.value
  {
    var ms := Magazines(st, a);
    var topics := set m | m in ms :: st.magazines[m].category;
    assert forall m :: m in ms ==> st.magazines[m].category in topics;
    if topics == {} then None else Some(topics)
  }

  /** An article appears in the list of its own author and of no other author. */
  lemma ArticleHasOneAuthor(st: State, i: nat, b: AuthorId)
    requires i < |st.all|
    ensures st.all[i] in Articles(st, b) <==> b == st.all[i].author
  {
  }
}
