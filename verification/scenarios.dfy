/** Example runs of the model: one author writing a list of titles for one magazine, stated
as lemmas over states built from the empty registry.
 */
module Scenarios {
  import opened Wrappers
  import opened Registry
  import Seqs
  import Authors
  import Magazines

  const Paul: AuthorId := 0

  const Tech: MagazineId := 0

  /** The magazine ("Tech Weekly", "Technology") created in the empty state, followed by one
      article by Paul for it per title, in order. */
  function PaulWrites(titles: seq<string>): (r: State)
  {
    var created := Magazines.New(Empty, Magazines.Str("Tech Weekly"), Magazines.Str("Technology"));
    AddAll(created.value.0, titles)
  }

  function AddAll(st: State, titles: seq<string>): (r: State)
    decreases |titles|
  {
    if titles == [] then st
    else AddAll(Authors.AddArticle(st, Paul, Tech, titles[0]).0, titles[1..])
  }

  /** The registry after AddAll holds the earlier entries followed by Paul's new ones. */
  lemma {:induction false} AddAllRegisters(st: State, titles: seq<string>)
    ensures AddAll(st, titles).magazines == st.magazines
    ensures AddAll(st, titles).nextMagazine == st.nextMagazine
    ensures AddAll(st, titles).all == st.all + ByPaul(titles)
    decreases |titles|
  {
    if titles != [] {
      var st1 := Authors.AddArticle(st, Paul, Tech, titles[0]).0;
      assert st1.all == st.all + [Article(Paul, Tech, titles[0])];
      AddAllRegisters(st1, titles[1..]);
      assert st.all + ByPaul(titles) == st1.all + ByPaul(titles[1..]);
    }
  }

  /** Paul's articles for the magazine, one per title. */
  function ByPaul(titles: seq<string>): (r: seq<Article>)
  {
    if titles == [] then [] else [Article(Paul, Tech, titles[0])] + ByPaul(titles[1..])
  }

  /** The state PaulWrites builds: the magazine with id Tech and Paul's articles in order. */
  lemma PaulWritesState(titles: seq<string>)
    ensures PaulWrites(titles) == State(ByPaul(titles), map[Tech := Magazine("Tech Weekly", "Technology")], 1)
  {
    var created := Magazines.New(Empty, Magazines.Str("Tech Weekly"), Magazines.Str("Technology"));
    assert created.value.0 == State([], map[Tech := Magazine("Tech Weekly", "Technology")], 1);
    AddAllRegisters(created.value.0, titles);
    assert [] + ByPaul(titles) == ByPaul(titles);
  }

  /** Every article of ByPaul is by Paul for Tech, so both article queries return all of them. */
  lemma ByPaulQueries(titles: seq<string>)
    ensures var st := PaulWrites(titles);
      Magazines.Articles(st, Tech) == ByPaul(titles) && Authors.Articles(st, Paul) == ByPaul(titles)
  {
    PaulWritesState(titles);
    ByPaulFields(titles);
    Seqs.FilterAll(ByPaul(titles), Magazines.PublishedIn(Tech));
    Seqs.FilterAll(ByPaul(titles), Authors.WrittenBy(Paul));
  }

  lemma {:induction false} ByPaulFields(titles: seq<string>)
    ensures |ByPaul(titles)| == |titles|
    ensures forall k :: 0 <= k < |titles| ==> ByPaul(titles)[k] == Article(Paul, Tech, titles[k])
  {
    if titles != [] {
      ByPaulFields(titles[1..]);
    }
  }

  /** Paul's only magazine is Tech, the only magazine there is. */
  lemma PaulMagazines(titles: seq<string>)
    requires titles != []
    ensures Authors.Magazines(PaulWrites(titles), Paul) == {Tech}
    ensures PaulWrites(titles).magazines == map[Tech := Magazine("Tech Weekly", "Technology")]
  {
    var st := PaulWrites(titles);
    PaulWritesState(titles);
    ByPaulFields(titles);
    assert st.all[0].author == Paul && st.all[0].magazine == Tech;
    forall m | m in Authors.Magazines(st, Paul)
      ensures m == Tech
    {
      var i :| 0 <= i < |st.all| && st.all[i].author == Paul && st.all[i].magazine == m;
    }
  }

  /** Paul's one topic area is the category of the magazine he writes for. */
  lemma PaulTopics(titles: seq<string>)
    requires titles != []
    ensures Authors.Magazines(PaulWrites(titles), Paul) <= PaulWrites(titles).magazines.Keys
    ensures Authors.TopicAreas(PaulWrites(titles), Paul) == Some({"Technology"})
  {
    var st := PaulWrites(titles);
    PaulMagazines(titles);
    var topics := Authors.TopicAreas(st, Paul).value;
    assert "Technology" in topics;
    assert topics == {"Technology"};
  }

  /** The magazine's titles are Paul's titles in the order he wrote them. */
  lemma PaulTitles(titles: seq<string>)
    requires titles != []
    ensures Magazines.ArticleTitles(PaulWrites(titles), Tech) == Some(titles)
  {
    ByPaulQueries(titles);
    ByPaulFields(titles);
    var st := PaulWrites(titles);
    var arts := Magazines.Articles(st, Tech);
    assert arts == ByPaul(titles);
    assert arts != [];
    var r := Magazines.ArticleTitles(st, Tech).value;
    assert |r| == |titles|;
    forall k | 0 <= k < |r|
      ensures r[k] == titles[k]
    {
      assert r[k] == arts[k].title;
    }
    assert r == titles;
  }

  /** Two articles: the topic area is the magazine's category, both titles come back in
      creation order, and two articles do not make Paul a contributing author. */
  lemma TwoArticles()
    ensures Authors.Magazines(PaulWrites(["AI Today", "Quantum Leaps"]), Paul) <= PaulWrites(["AI Today", "Quantum Leaps"]).magazines.Keys
    ensures Authors.TopicAreas(PaulWrites(["AI Today", "Quantum Leaps"]), Paul) == Some({"Technology"})
    ensures Magazines.ArticleTitles(PaulWrites(["AI Today", "Quantum Leaps"]), Tech) == Some(["AI Today", "Quantum Leaps"])
    ensures Magazines.ContributingAuthors(PaulWrites(["AI Today", "Quantum Leaps"]), Tech) == None
  {
    var titles := ["AI Today", "Quantum Leaps"];
    PaulTopics(titles);
    PaulTitles(titles);
    PaulContributes(titles);
  }

  /** Every article PaulWrites registers for Tech counts for Paul and for nobody else. */
  lemma PaulCounts(titles: seq<string>, a: AuthorId)
    ensures Magazines.ArticleCount(PaulWrites(titles), Tech, a) == if a == Paul then |titles| else 0
  {
    ByPaulQueries(titles);
    ByPaulFields(titles);
    if a == Paul {
      Seqs.FilterAll(ByPaul(titles), Authors.WrittenBy(a));
    } else {
      Seqs.FilterNone(ByPaul(titles), Authors.WrittenBy(a));
    }
  }

  /** Paul is the one contributing author of Tech once he has written more than two
      articles for it, and there is none before. */
  lemma PaulContributes(titles: seq<string>)
    ensures |titles| > Magazines.Threshold ==> Magazines.ContributingAuthors(PaulWrites(titles), Tech) == Some([Paul])
    ensures |titles| <= Magazines.Threshold ==> Magazines.ContributingAuthors(PaulWrites(titles), Tech) == None
  {
    var st := PaulWrites(titles);
    forall a
      ensures Magazines.ArticleCount(st, Tech, a) == if a == Paul then |titles| else 0
    {
      PaulCounts(titles, a);
    }
    if |titles| > Magazines.Threshold {
      Magazines.SoleContributingAuthor(st, Tech, Paul);
    }
  }

  /** Three articles make Paul the one contributing author. */
  lemma ThreeArticles()
    ensures Magazines.ContributingAuthors(PaulWrites(["A", "B", "C"]), Tech) == Some([Paul])
  {
    PaulContributes(["A", "B", "C"]);
  }

  /** An author with no articles has no articles, no magazines and no topic areas. */
  lemma AuthorWithoutArticles(st: State, a: AuthorId)
    requires forall i :: 0 <= i < |st.all| ==> st.all[i].author != a
    ensures Authors.Articles(st, a) == []
    ensures Authors.Magazines(st, a) == {}
    ensures Authors.TopicAreas(st, a) == None
  {
    Seqs.FilterNone(st.all, Authors.WrittenBy(a));
  }

  /** A magazine with no articles has neither titles nor contributing authors. */
  lemma MagazineWithoutArticles(st: State, m: MagazineId)
    requires forall i :: 0 <= i < |st.all| ==> st.all[i].magazine != m
    ensures Magazines.ArticleTitles(st, m) == None
    ensures Magazines.ContributingAuthors(st, m) == None
  {
    assert Magazines.ArticleTitles(st, m).None?;
    assert Magazines.Articles(st, m) == [];
  }
}
