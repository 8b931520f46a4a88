# hexaservice-go: validation and storage core, in Dafny

A model of the validation-and-storage core of `hexaservice-go`, a small Go
service in hexagonal (ports and adapters) style with two bounded contexts.

- **Article** (`article/core`, `article/adapters`): an article record and its
  validator. `ArticleService` validates on create and forwards everything to
  an `ArticleRepository` port. The in-memory adapter keeps a map from id to
  article and offers create, lookup by id and lookup by title.
- **Journal** (`journal/core`, `journal/adapters`): the same shape for
  journals. There is no lookup by title, and the in-memory adapter answers a
  miss with its own fresh error value.

The model is functional. Entities are immutable datatypes. A repository port
is a datatype of three (Article) or two (Journal) function values over an
arbitrary state type `S`. Each operation returns its reply together with the
state after the call, so "the repository was not touched" is an equation on
states. The in-memory adapters are `map<string, Entity>` threaded through
pure functions. `Port(...)` plugs each adapter into its service.

Go's `(value, error)` pair is `Outcomes.Reply`. Errors are
`Outcomes.Error<F>`, parameterised by the context's field type:
- `NotFound` is the context's not-found sentinel;
- `Invalid(field)` wraps the context's invalid-data sentinel and names the
  first field that failed;
- `Other(msg)` is any other error value. It never equals a sentinel, even
  when its text is the same.

Modules follow the source layout:

| module | file | source |
|---|---|---|
| `Text` | text.dfy | `strings.TrimSpace` as the validators use it |
| `Outcomes` | outcomes.dfy | Go's error and `(value, error)` conventions, both errors.go files |
| `ArticleCore` | article_core.dfy | article/core/article.go, errors.go, ports.go |
| `ArticleMemory` | article_memory.dfy | article/adapters/inmemoryrepository.go |
| `JournalCore` | journal_core.dfy | journal/core/journal.go, errors.go, ports.go |
| `JournalMemory` | journal_memory.dfy | journal/adapters/inmemory_repository.go |

The lookup by title ranges over a Go map, and Go does not fix the
iteration order. The model makes that order an explicit argument `order`.
Its properties hold for every order that covers the stored keys. The
adapter plugged into the service (`ArticleMemory.Port`) takes the order as
a function of the map, and requires that it visit every stored key, as Go's
`range` does.
`AnyTitleMatchMayBeReturned` shows that, among articles sharing a title,
each one is the answer for some order.

The in-memory adapters do no validation of their own. Calling
`CreateArticle(Article{})` on the adapter directly stores the zero article
and returns it with a nil error. A successful lookup is guaranteed never to
yield the zero entity only for stores filled through the services
(`ArticleMemory.ServiceKeepsStoreValid`,
`ArticleMemory.ValidStoreNeverYieldsZero`).

## Model

| member | source | states |
|---|---|---|
| Text.TrimSpace | article/core/article.go:20 | The result is the input with only whitespace removed before and after it, has no whitespace at either end, and is empty exactly when the input is blank (all whitespace) |
| ArticleCore.Validate | article/core/article.go:19-37 | nil exactly when id, title, author id and journal id are all non-blank; otherwise an invalid-article error naming the first blank field in the order id, title, author id, journal id (each field's case stated as an if-and-only-if) |
| ArticleCore.ValidateIgnoresFreeText | article/core/article.go:8-37 | Changing the abstract or either timestamp never changes the validation result |
| ArticleCore.MessageWrapsSentinel | article/core/article.go:21-33 | Because the invalid-article error wraps its sentinel with `%w`, a message of either sentinel-derived error starts with "invalid article data" exactly when the error is an invalid-article error |
| ArticleCore.MessageIdentifiesError | article/core/errors.go:7-10 | Two sentinel-derived errors (not found, or invalid with a field) print the same text exactly when they are the same error, so the text names the failing field |
| ArticleCore.CreateArticle | article/core/article.go:47-52 | An invalid article yields the validator's error, a zero article and the unchanged repository state; a valid one yields exactly the repository's reply and state |
| ArticleCore.InvalidArticleNeverReachesPort | article/core/article.go:47-50 | For an invalid article the outcome is the same under any two repositories, so the repository is never consulted |
| ArticleCore.GetArticleByID | article/core/article.go:54-56 | The repository's reply and state are returned unchanged, with no validation |
| ArticleCore.GetArticleByTitle | article/core/article.go:58-60 | The repository's reply and state are returned unchanged, with no validation |
| ArticleMemory.NewRepository | article/adapters/inmemoryrepository.go:11-13 | A new repository is empty and satisfies the key invariant |
| ArticleMemory.CreateArticle | article/adapters/inmemoryrepository.go:15-18 | Never fails and returns its argument; the new store is the old one with the article's id mapped to it and every other key unchanged; the invariant "each stored article sits under its own id" is preserved |
| ArticleMemory.GetArticleByID | article/adapters/inmemoryrepository.go:20-26 | Succeeds exactly when the id is stored, returning the stored article; otherwise the not-found sentinel with a zero article; the store is unchanged |
| ArticleMemory.LookupReturnsOwnId | article/adapters/inmemoryrepository.go:15-26 | Because creates store each article under its own id, a successful lookup by id returns an article carrying that id |
| ArticleMemory.CreateThenGetByID | article/adapters/inmemoryrepository.go:15-26 | Create then lookup by the same id returns what was created; a second create under the same id wins |
| ArticleMemory.GetArticleByTitle | article/adapters/inmemoryrepository.go:28-35 | A success is a stored article whose title equals the query exactly; a failure is the not-found sentinel with a zero article, and then no visited key holds that title; the store is unchanged |
| ArticleMemory.TitleFoundIffStored | article/adapters/inmemoryrepository.go:28-35 | Over an order covering all keys, the lookup by title succeeds exactly when some stored article has that title |
| ArticleMemory.UniqueTitleFound | article/adapters/inmemoryrepository.go:28-35 | When only one stored article has the title, every covering order returns that article |
| ArticleMemory.AnyTitleMatchMayBeReturned | article/adapters/inmemoryrepository.go:29-33 | Every stored article is the answer to a lookup of its title for some covering iteration order, so the choice among duplicates is unspecified |
| ArticleMemory.FullIterationFindsTitles | article/adapters/inmemoryrepository.go:28-35 | When the iteration visits every key of every map, the lookup by title succeeds on any map exactly when some stored article has the title |
| ArticleMemory.Port | article/core/ports.go:3-7 | The in-memory adapter as an `ArticleRepository`, with an iteration that visits every key: a lookup by id returns what was just created under it, and a lookup by title succeeds exactly when some stored article has that title |
| ArticleMemory.ServiceCreateThenGetByID | article/core/article.go:47-56 | Through the service over the in-memory adapter, creating a valid article succeeds with it and a lookup of its id then returns it |
| ArticleMemory.ServiceCreateThenGetByTitle | article/core/article.go:47-60 | Through the service, after creating a valid article whose title no other stored article has, a lookup of that title returns it |
| ArticleMemory.ServiceKeepsStoreValid | article/core/article.go:47-51 | Creates through the service keep every stored article valid |
| ArticleMemory.ValidStoreNeverYieldsZero | article/adapters/inmemoryrepository.go:20-26 | Over a store of valid articles, a successful lookup by id never returns the zero article |
| ArticleMemory.DemoArticleIsValid | article/main.go:75-83 | The demonstration article passes validation whatever its abstract and timestamps |
| ArticleMemory.MachineLearningExample | article/main.go:85-108 | The demonstration flow: the article is created into an empty repository and found again by id and by title, for every iteration that visits all keys |
| JournalCore.Validate | journal/core/journal.go:16-30 | nil exactly when id and name are non-blank and the impact factor is not negative (zero accepted); otherwise an invalid-journal error naming the first failing check in the order id, name, impact factor (each case an if-and-only-if) |
| JournalCore.ValidateIgnoresDescription | journal/core/journal.go:8-30 | Changing the description never changes the validation result |
| JournalCore.MessageWrapsSentinel | journal/core/journal.go:18-26 | Because the invalid-journal error wraps its sentinel with `%w`, a message of either sentinel-derived error starts with "invalid journal data" exactly when the error is an invalid-journal error |
| JournalCore.MessageIdentifiesError | journal/core/errors.go:7-10 | Two sentinel-derived errors print the same text exactly when they are the same error, so the text names the failing check |
| JournalCore.CreateJournal | journal/core/journal.go:41-46 | An invalid journal yields the validator's error, a zero journal and the unchanged state; a valid one yields exactly the repository's reply and state |
| JournalCore.InvalidJournalNeverReachesPort | journal/core/journal.go:41-44 | For an invalid journal the outcome is the same under any two repositories |
| JournalCore.GetJournal | journal/core/journal.go:48-50 | The repository's reply and state are returned unchanged, with no validation |
| JournalMemory.NewRepository | journal/adapters/inmemory_repository.go:13-15 | A new repository is empty and satisfies the key invariant |
| JournalMemory.CreateJournal | journal/adapters/inmemory_repository.go:17-20 | Never fails, returns its argument, overwrites the entry under its id, leaves other keys unchanged and preserves the key invariant |
| JournalMemory.GetJournal | journal/adapters/inmemory_repository.go:22-28 | Succeeds exactly when the id is stored, returning the stored journal; otherwise a zero journal with an error whose text equals the not-found sentinel's but which is not that sentinel; the store is unchanged |
| JournalMemory.GetReturnsOwnId | journal/adapters/inmemory_repository.go:17-28 | Because creates store each journal under its own id, a successful lookup returns a journal carrying that id |
| JournalMemory.Port | journal/core/ports.go:3-6 | The in-memory adapter as a `JournalRepository`: a get returns what was just created under the id, and succeeds exactly when the id is stored |
| JournalMemory.CreateThenGet | journal/adapters/inmemory_repository.go:17-28 | Create then get by the same id returns what was created; the last create under an id wins |
| JournalMemory.ServiceCreateThenGet | journal/core/journal.go:41-50 | Through the service over the in-memory adapter, creating a valid journal succeeds with it and getting its id returns it |
| JournalMemory.ServiceMissIsNotSentinel | journal/adapters/inmemory_repository.go:24-25 | Through the service, a miss is the adapter's fresh "journal not found" error with a zero journal, and the store is unchanged |
| JournalMemory.ServiceKeepsStoreValid | journal/core/journal.go:41-45 | Creates through the service keep every stored journal valid |
| JournalMemory.NatureIsValid | journal/main.go:169-176 | The demonstration journal passes validation whatever its description |
| JournalMemory.NatureExample | journal/main.go:178-194 | The demonstration flow: the journal is created into an empty repository and read back by id |
| JournalMemory.MissingExample | journal/adapters/inmemory_repository.go:22-26 | After the demonstration journal is stored, the id "missing" yields a zero journal and the adapter's not-found error |
| JournalMemory.NegativeImpactFactorExample | journal/core/journal.go:25-27 | The demonstration journal with impact factor -1.0 is rejected as an invalid impact factor and the store is unchanged |

## Left out

- The MySQL adapters (article/adapters/mysql_repository.go, journal/adapters/mysql_repository.go) are left out. They are SQL run through `database/sql`, and their behaviour lives in the database. Their one local decision is mapping `sql.ErrNoRows` to the not-found sentinel. The port model admits them as just another state type and set of functions.
- The demo wiring in article/main.go and journal/main.go is left out. This covers `MYSQL_DSN` backend selection, logging, goroutines, and the gRPC server with its `GetJournal` handler, which copies fields into generated protocol-buffer types that are not part of this model. The two demonstration flows appear only as the example lemmas.
- Concurrency is not modelled. The in-memory maps have no lock, and every operation is treated as running alone.
- Text.TrimSpace: whitespace is the Latin-1 part of Unicode's White_Space property (tab, line feed, vertical tab, form feed, carriage return, space, U+0085, U+00A0). Higher code points that Go also trims (U+1680, U+2000–U+200A, U+2028, U+2029, U+202F, U+205F, U+3000) count as ordinary characters here. Strings are sequences of code points, so invalid UTF-8 is not modelled.
- JournalCore.Validate: the impact factor is a `real`, not an IEEE `float64`. NaN is not modelled: Go's `NaN < 0` is false, so a NaN impact factor passes validation. Negative zero is not modelled either; Go accepts it like zero.
- ArticleMemory.GetArticleByTitle: the iteration order is an argument rather than Go's per-call randomised order. The properties are proved for every order that covers the stored keys. Through `ArticleMemory.Port` the order is a fixed function of the map, so two lookups on the same map agree. Go does not promise that, and no property here relies on it.
- Errors are compared by kind, not by identity. `NotFound` is the sentinel. Two `Invalid(f)` errors are equal whenever their fields are, and two `Other(msg)` errors whenever their texts are. In Go each `fmt.Errorf` (article/core/article.go:21) and each `errors.New` (journal/adapters/inmemory_repository.go:25) yields a fresh value, so two such errors are unequal under `==` and `errors.Is`. That per-call identity is not modelled. The `%w` chain is represented only by the constructor `Invalid(field)` and by `Message`, the text `err.Error()` would print.
