/**
  The Article bounded context's core: the entity, its validator, its error
  values, the repository port and the domain service that validates on
  create and otherwise forwards to whichever repository it was built with.
 */
module ArticleCore {
  import opened Text
  import opened Outcomes

  /** An article record. The two timestamps are free text that the core never
      inspects. */
  datatype Article = Article(
    id: string,
    title: string,
    abstractText: string,
    authorId: string,
    journalId: string,
    createdAt: string,
    updatedAt: string)

  /** Go's zero `Article{}`: every field empty. */
  const ZeroArticle := Article("", "", "", "", "", "", "")

  /** The fields the validator requires, in the order it checks them. */
  datatype Field = Id | Title | AuthorId | JournalId

  type ArticleError = Error<Field>
  type ArticleReply = Reply<Article, Field>

  /** The text of the sentinels `ErrArticleNotFound` and `ErrInvalidArticle`. */
  const NotFoundText := "article not found"
  const InvalidText := "invalid article data"

  /** The reference meaning of a valid article: no required field is blank. */
  predicate IsValid(a: Article) {
    !IsBlank(a.id) && !IsBlank(a.title) && !IsBlank(a.authorId) && !IsBlank(a.journalId)
  }

  /** `Article.Validate`: the first required field, in the order id, title,
      author id, journal id, whose trimmed value is empty is reported as an
      invalid-article error; otherwise the result is nil. */
  function Validate(a: Article): (r: Option<ArticleError>)
    ensures r.None? <==> IsValid(a)
    ensures r == Some(Invalid(Id)) <==> IsBlank(a.id)
    ensures r == Some(Invalid(Title)) <==> !IsBlank(a.id) && IsBlank(a.title)
    ensures r == Some(Invalid(AuthorId)) <==> !IsBlank(a.id) && !IsBlank(a.title) && IsBlank(a.authorId)
    ensures r == Some(Invalid(JournalId))
            <==> !IsBlank(a.id) && !IsBlank(a.title) && !IsBlank(a.authorId) && IsBlank(a.journalId)
    ensures r.Some? ==> r.value.Invalid?
  {
    if TrimSpace(a.id) == "" then Some(Invalid(Id))
    else if TrimSpace(a.title) == "" then Some(Invalid(Title))
    else if TrimSpace(a.authorId) == "" then Some(Invalid(AuthorId))
    else if TrimSpace(a.journalId) == "" then Some(Invalid(JournalId))
    else None
  }

  /** The abstract and the two timestamps never affect validation. */
  lemma ValidateIgnoresFreeText(a: Article, abstractText: string, createdAt: string, updatedAt: string)
    ensures Validate(a.(abstractText := abstractText, createdAt := createdAt, updatedAt := updatedAt)) == Validate(a)
  {
  }

  /** The text `err.Error()` yields. An invalid-article error wraps the
      sentinel with `%w`, so its text starts with the sentinel's. */
  function Message(e: ArticleError): string {
    match e
    case NotFound => NotFoundText
    case Invalid(f) => InvalidText + ": " + Reason(f)
    case Other(msg) => msg
  }

  function Reason(f: Field): string {
    match f
    case Id => "ID cannot be empty"
    case Title => "title cannot be empty"
    case AuthorId => "author ID cannot be empty"
    case JournalId => "journal ID cannot be empty"
  }

  /** The `%w` wrap: a sentinel-derived message starts with the
      invalid-article sentinel's text exactly when the error is an
      invalid-article error, so the prefix tells the two sentinels apart. */
  lemma MessageWrapsSentinel(e: ArticleError)
    requires !e.Other?
    ensures InvalidText <= Message(e) <==> e.Invalid?
  {
  }

  /** Two sentinel-derived errors print the same text exactly when they are
      the same error, so the text names the failing field. */
  lemma MessageIdentifiesError(e: ArticleError, e': ArticleError)
    requires !e.Other? && !e'.Other?
    ensures Message(e) == Message(e') <==> e == e'
  {
  }

  /** The repository port: any storage with state `S` offering the three
      operations, each returning its reply and the state after the call. */
  datatype ArticlePort<!S> = ArticlePort(
    createArticle: (S, Article) -> (ArticleReply, S),
    getArticleByID: (S, string) -> (ArticleReply, S),
    getArticleByTitle: (S, string) -> (ArticleReply, S))

  /** `ArticleService.CreateArticle`: an invalid article is answered with the
      validator's error and a zero article without touching the repository;
      a valid one is handed to the repository, whose reply and new state are
      the result. */
  function CreateArticle<S>(port: ArticlePort<S>, s: S, a: Article): (r: (ArticleReply, S))
    ensures !IsValid(a) ==> r.1 == s && r.0.value == ZeroArticle && r.0.err == Validate(a) && r.0.err.Some?
    ensures IsValid(a) ==> r == port.createArticle(s, a)
  {
    match Validate(a)
    case Some(e) => (Failure(ZeroArticle, e), s)
    case None => port.createArticle(s, a)
  }

  /** An invalid article never reaches the repository: the outcome is the
      same whatever the repository would have done with it. */
  lemma InvalidArticleNeverReachesPort<S>(p: ArticlePort<S>, q: ArticlePort<S>, s: S, a: Article)
    requires !IsValid(a)
    ensures CreateArticle(p, s, a) == CreateArticle(q, s, a)
  {
  }

  /** `ArticleService.GetArticleByID`: the repository's reply, unvalidated. */
  function GetArticleByID<S>(port: ArticlePort<S>, s: S, id: string): (r: (ArticleReply, S))
    ensures r == port.getArticleByID(s, id)
  {
    port.getArticleByID(s, id)
  }

  /** `ArticleService.GetArticleByTitle`: the repository's reply, unvalidated. */
  function GetArticleByTitle<S>(port: ArticlePort<S>, s: S, title: string): (r: (ArticleReply, S))
    ensures r == port.getArticleByTitle(s, title)
  {
    port.getArticleByTitle(s, title)
  }
}
