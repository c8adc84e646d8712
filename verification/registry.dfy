/** The shared state of the many-to-many model: the article registry (every article ever
created, in creation order) and the current name and category of every magazine.

Authors and magazines are compared by identity in the system, so both are represented by
opaque ids. An article is an immutable record of its author, its magazine and its title;
the title accessor is the record's `title` field.
 */
module Registry {

  type AuthorId = nat
  type MagazineId = nat

  datatype Article = Article(author: AuthorId, magazine: MagazineId, title: string)

  /** The two assignable fields of a magazine. */
  datatype Magazine = Magazine(name: string, category: string)

  /** `all` is the registry; `magazines` holds each live magazine's fields; `nextMagazine` is
      the id the next constructed magazine receives. */
  datatype State = State(all: seq<Article>, magazines: map<MagazineId, Magazine>, nextMagazine: MagazineId)

  /** The state before anything has been created. */
  const Empty: State := State([], map[], 0)

  /** Every registered article refers to a live magazine. */
  ghost predicate Linked(st: State)
  {
    forall i :: 0 <= i < |st.all| ==> st.all[i].magazine in st.magazines
  }

  /** The well-formed states: every article refers to a constructed magazine, ids handed out
      so far are below the counter, and no magazine has an empty category. An article for a
      magazine id that is not live stands for an article whose magazine is some other object;
      the commands keep this predicate only when no such article is created. */
  ghost predicate Valid(st: State)
  {
    && Linked(st)
    && (forall m :: m in st.magazines ==> m < st.nextMagazine)
    && (forall m :: m in st.magazines ==> st.magazines[m].category != "")
  }

  /** An id above the counter and above every magazine id any registered article refers to:
      the id the next constructed magazine receives. No article can already name it, just as
      no article can refer to an object that has not been constructed yet. */
  function FreshMagazine(st: State): (r: MagazineId)
    ensures r >= st.nextMagazine
    ensures forall i :: 0 <= i < |st.all| ==> st.all[i].magazine < r
  {
    Above(st.all, st.nextMagazine)
  }

  /** The least id that is at least `lo` and above the magazine of every article in `arts`. */
  function Above(arts: seq<Article>, lo: MagazineId): (r: MagazineId)
    ensures r >= lo
    ensures forall i :: 0 <= i < |arts| ==> arts[i].magazine < r
    ensures r == lo || exists i :: 0 <= i < |arts| && r == arts[i].magazine + 1
  {
    if arts == [] then lo
    else
      var rest := Above(arts[1..], lo);
      assert forall i :: 1 <= i < |arts| ==> arts[i] == arts[1..][i - 1];
      if arts[0].magazine < rest then rest else arts[0].magazine + 1
  }

  lemma EmptyValid()
    ensures Valid(Empty)
    ensures Empty.all == []
  {
  }

  /** Constructing an article registers it: exactly one entry is appended to the end of the
      registry and everything else is left as it was. Returns the new state and the article. */
  function NewArticle(st: State, author: AuthorId, magazine: MagazineId, title: string): (r: (State, Article))
    ensures |r.0.all| == |st.all| + 1
    ensures r.0.all[..|st.all|] == st.all
    ensures r.0.all[|st.all|] == r.1
    ensures r.1.author == author && r.1.magazine == magazine && r.1.title == title
    ensures r.0.magazines == st.magazines && r.0.nextMagazine == st.nextMagazine
    ensures Valid(st) && magazine in st.magazines ==> Valid(r.0)
  {
    var article := Article(author, magazine, title);
    (st.(all := st.all + [article]), article)
  }
}
