/**
  The in-memory Article repository: a map from id to article, with no
  locking (every operation is taken to run alone).
 */
module ArticleMemory {
  import Text
  import opened Outcomes
  import opened ArticleCore

  type Store = map<string, Article>

  /** Every stored article sits under its own id. */
  predicate WellKeyed(m: Store) {
    forall k :: k in m ==> m[k].id == k
  }

  /** A freshly constructed repository. */
  function NewRepository(): (m: Store)
    ensures WellKeyed(m) && |m| == 0
  {
    map[]
  }

  /** `CreateArticle`: stores the article under its id, replacing whatever was
      there, and hands it back with a nil error. Nothing is validated. */
  function CreateArticle(m: Store, a: Article): (r: (ArticleReply, Store))
    ensures r.0.Ok() && r.0.value == a
    ensures r.1.Keys == m.Keys + {a.id} && r.1[a.id] == a
    ensures forall k :: k in m && k != a.id ==> r.1[k] == m[k]
    ensures WellKeyed(m) ==> WellKeyed(r.1)
  {
    (Success(a), m[a.id := a])
  }

  /** `GetArticleByID`: the stored article, or the not-found sentinel with a
      zero article. The store is left as it was. */
  function GetArticleByID(m: Store, id: string): (r: (ArticleReply, Store))
    ensures r.1 == m
    ensures r.0.Ok() <==> id in m
    ensures id in m ==> r.0.value == m[id]
    ensures id !in m ==> r.0.value == ZeroArticle && r.0.err == Some(NotFound)
  {
    if id in m then (Success(m[id]), m) else (Failure(ZeroArticle, NotFound), m)
  }

  /** Reading an id back right after creating under it yields what was
      created; a second create under the same id replaces the first. */
  lemma CreateThenGetByID(m: Store, a: Article, b: Article)
    requires b.id == a.id
    ensures GetArticleByID(CreateArticle(m, a).1, a.id).0 == Success(a)
    ensures GetArticleByID(CreateArticle(CreateArticle(m, a).1, b).1, a.id).0 == Success(b)
  {
  }

  /** A successful lookup by id over a well-keyed store returns an article
      whose own id is the one asked for. */
  lemma LookupReturnsOwnId(m: Store, id: string)
    requires WellKeyed(m)
    ensures GetArticleByID(m, id).0.Ok() ==> GetArticleByID(m, id).0.value.id == id
  {
  }

  /** `order` lists every key of `m`, as any iteration of Go's `range` over
      the map does. */
  predicate Covers(order: seq<string>, m: Store) {
    forall k :: k in m ==> k in order
  }

  /** `GetArticleByTitle`: visits the keys in `order` (the map's iteration
      order, which Go leaves unspecified) and returns the first article whose
      title equals `title` exactly, or the not-found sentinel with a zero
      article. The store is left as it was. */
  function GetArticleByTitle(m: Store, title: string, order: seq<string>): (r: (ArticleReply, Store))
    ensures r.1 == m
    ensures r.0.Ok() ==> r.0.value in m.Values && r.0.value.title == title
    ensures !r.0.Ok() ==> r.0.value == ZeroArticle && r.0.err == Some(NotFound)
    ensures !r.0.Ok() ==> forall i :: 0 <= i < |order| && order[i] in m ==> m[order[i]].title != title
    decreases |order|
  {
    if |order| == 0 then
      (Failure(ZeroArticle, NotFound), m)
    else if order[0] in m && m[order[0]].title == title then
      (Success(m[order[0]]), m)
    else
      GetArticleByTitle(m, title, order[1..])
  }

  /** Over a full iteration, the lookup by title fails exactly when no stored
      article has that title. */
  lemma {:induction false} TitleFoundIffStored(m: Store, title: string, order: seq<string>)
    requires Covers(order, m)
    ensures GetArticleByTitle(m, title, order).0.Ok() <==> exists k :: k in m && m[k].title == title
  {
    if !GetArticleByTitle(m, title, order).0.Ok() {
      forall k | k in m
        ensures m[k].title != title
      {
        var i :| 0 <= i < |order| && order[i] == k;
      }
    }
  }

  /** When a single stored article has the title, every iteration order finds
      that one. */
  lemma {:induction false} UniqueTitleFound(m: Store, title: string, order: seq<string>, a: Article)
    requires Covers(order, m)
    requires a in m.Values && a.title == title
    requires forall k :: k in m && m[k].title == title ==> m[k] == a
    ensures GetArticleByTitle(m, title, order).0 == Success(a)
  {
    var k :| k in m && m[k] == a;
    TitleFoundIffStored(m, title, order);
  }

  /** A list of the keys, in some order. */
  ghost function Enumerate(keys: set<string>): (order: seq<string>)
    ensures forall k :: k in keys ==> k in order
  {
    if keys == {} then []
    else
      var k :| k in keys;
      [k] + Enumerate(keys - {k})
  }

  /** Among articles that share a title, which one is returned is not
      determined: for each of them some iteration order returns it. */
  lemma AnyTitleMatchMayBeReturned(m: Store, k: string)
    requires k in m
    ensures exists order :: Covers(order, m) && GetArticleByTitle(m, m[k].title, order).0 == Success(m[k])
  {
    var order := [k] + Enumerate(m.Keys);
    assert Covers(order, m);
    assert GetArticleByTitle(m, m[k].title, order).0 == Success(m[k]);
  }

  /** `iterate` stands for Go's `range` over the map: whatever order it picks
      for a given map, it visits every stored key. */
  ghost predicate VisitsEveryKey(iterate: Store -> seq<string>) {
    forall m: Store :: Covers(iterate(m), m)
  }

  /** Under an iteration that visits every key, the lookup by title fails
      exactly when no stored article carries the title, on every map. */
  lemma FullIterationFindsTitles(iterate: Store -> seq<string>)
    requires VisitsEveryKey(iterate)
    ensures forall m: Store, title: string ::
              GetArticleByTitle(m, title, iterate(m)).0.Ok() <==> exists k :: k in m && m[k].title == title
  {
    forall m: Store, title: string
      ensures GetArticleByTitle(m, title, iterate(m)).0.Ok() <==> exists k :: k in m && m[k].title == title
    {
      TitleFoundIffStored(m, title, iterate(m));
    }
  }

  /** The adapter as an `ArticleRepository`. A repository reached through it
      returns what was just created under an id, and finds a title exactly
      when some stored article carries it. */
  function Port(iterate: Store -> seq<string>): (p: ArticlePort<Store>)
    requires VisitsEveryKey(iterate)
    ensures forall m: Store, a: Article :: p.getArticleByID(p.createArticle(m, a).1, a.id).0 == Success(a)
    ensures forall m: Store, title: string ::
              p.getArticleByTitle(m, title).0.Ok() <==> exists k :: k in m && m[k].title == title
  {
    FullIterationFindsTitles(iterate);
    ArticlePort(
      (m, a) => CreateArticle(m, a),
      (m, id) => GetArticleByID(m, id),
      (m, title) => GetArticleByTitle(m, title, iterate(m)))
  }

  /** Creating a valid article through the service and reading it back by id
      yields the same article; last write wins for a repeated id. */
  lemma ServiceCreateThenGetByID(m: Store, a: Article, iterate: Store -> seq<string>)
    requires VisitsEveryKey(iterate)
    requires IsValid(a)
    ensures var (created, m') := ArticleCore.CreateArticle(Port(iterate), m, a);
            && created == Success(a)
            && ArticleCore.GetArticleByID(Port(iterate), m', a.id) == (Success(a), m')
  {
    var m' := m[a.id := a];
    assert ArticleCore.CreateArticle(Port(iterate), m, a) == CreateArticle(m, a) == (Success(a), m');
    assert ArticleCore.GetArticleByID(Port(iterate), m', a.id) == GetArticleByID(m', a.id);
  }

  /** Creating a valid article whose title no other stored article carries,
      then looking the title up through the service, yields that article. */
  lemma ServiceCreateThenGetByTitle(m: Store, a: Article, iterate: Store -> seq<string>)
    requires VisitsEveryKey(iterate)
    requires IsValid(a)
    requires forall k :: k in m && k != a.id ==> m[k].title != a.title
    ensures var (_, m') := ArticleCore.CreateArticle(Port(iterate), m, a);
            ArticleCore.GetArticleByTitle(Port(iterate), m', a.title).0 == Success(a)
  {
    var m' := m[a.id := a];
    assert ArticleCore.CreateArticle(Port(iterate), m, a) == CreateArticle(m, a) == (Success(a), m');
    assert m'[a.id] == a;
    assert Covers(iterate(m'), m');
    UniqueTitleFound(m', a.title, iterate(m'), a);
    assert ArticleCore.GetArticleByTitle(Port(iterate), m', a.title) == GetArticleByTitle(m', a.title, iterate(m'));
  }

  /** Every stored article passes validation. */
  predicate AllValid(m: Store) {
    forall k :: k in m ==> IsValid(m[k])
  }

  /** A store filled only through the service holds valid articles only. */
  lemma ServiceKeepsStoreValid(m: Store, a: Article, iterate: Store -> seq<string>)
    requires VisitsEveryKey(iterate)
    requires AllValid(m)
    ensures AllValid(ArticleCore.CreateArticle(Port(iterate), m, a).1)
  {
    if IsValid(a) {
      assert ArticleCore.CreateArticle(Port(iterate), m, a).1 == m[a.id := a];
    }
  }

  /** Over a store of valid articles, a successful lookup through the service
      never yields the zero article. */
  lemma ValidStoreNeverYieldsZero(m: Store, id: string, iterate: Store -> seq<string>)
    requires VisitsEveryKey(iterate)
    requires AllValid(m)
    ensures ArticleCore.GetArticleByID(Port(iterate), m, id).0.Ok()
            ==> ArticleCore.GetArticleByID(Port(iterate), m, id).0.value != ZeroArticle
  {
    assert ArticleCore.GetArticleByID(Port(iterate), m, id) == GetArticleByID(m, id);
    if id in m {
      assert IsValid(m[id]);
      assert !IsValid(ZeroArticle);
    }
  }

  /** The demonstration article is valid, whatever its abstract and
      timestamps. */
  lemma DemoArticleIsValid(article: Article)
    requires article.id == "1" && article.title == "Advanced Machine Learning Techniques"
    requires article.authorId == "author_1" && article.journalId == "journal_1"
    ensures IsValid(article)
  {
    assert !Text.IsSpace(article.id[0]) && !Text.IsSpace(article.title[0]);
    assert !Text.IsSpace(article.authorId[0]) && !Text.IsSpace(article.journalId[0]);
  }

  /** A worked example: the demonstration article (any abstract and
      timestamps), stored through the service into an empty repository, is
      found again both by its id and by its title. */
  lemma MachineLearningExample(article: Article, m: Store, iterate: Store -> seq<string>)
    requires article.id == "1" && article.title == "Advanced Machine Learning Techniques"
    requires article.authorId == "author_1" && article.journalId == "journal_1"
    requires VisitsEveryKey(iterate)
    requires m == map[article.id := article]
    ensures ArticleCore.CreateArticle(Port(iterate), NewRepository(), article) == (Success(article), m)
    ensures ArticleCore.GetArticleByID(Port(iterate), m, "1").0 == Success(article)
    ensures ArticleCore.GetArticleByTitle(Port(iterate), m, article.title).0 == Success(article)
  {
    DemoArticleIsValid(article);
    ServiceCreateThenGetByID(NewRepository(), article, iterate);
    ServiceCreateThenGetByTitle(NewRepository(), article, iterate);
  }
}
