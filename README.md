# News compiler — a Dafny model of its core

The news compiler has three parts.

- A Python scraper collects articles from news sites. It serialises each one (`Article.to_dict`) and posts it to a Spring backend.
- The Spring backend stores the articles in an `articles` table with unique titles. It serves them through a REST API:
  - `GET /api/articles/recent`: the last 24 hours, published articles first and newest first;
  - a body-less `/recent/lite` variant;
  - lookup by id;
  - an upsert-by-title write endpoint;
  - the list of human-readable category labels.
- A React frontend lays the recent articles out in a masonry grid of columns and shows one article cut into paragraphs.

This project models the logic of those parts. Each Dafny module follows one source file:

| module (file) | source |
|---|---|
| `Categories` (categories.dfy) | the fifteen `Category` constants (entity/Category.java) |
| `Strings` (strings.dfy) | string helpers the code relies on: `split` with leftmost non-overlapping matches (JavaScript's, and Java's with trailing empty pieces removed), ASCII `toLowerCase`/`toUpperCase`, and `trim`, which strips characters up to `' '` |
| `CategoryService` (category_service.dfy) | `formatCategory` as the StringBuilder loop it is, and `getCategories` |
| `Entity`, `Dto`, `Mapper` | the stored record, the DTO with its `equals`, and the field-by-field mapper |
| `Repository` (repository.dfy) | the JPA repository as a class over a store. The store holds the rows in enumeration order, a generated-id counter and the unique-title constraint (`save` on a duplicate title is an error) |
| `StableSort`, `Ranking` | the 24-hour filter, the three-branch comparator, and the stable sort `List.sort` performs |
| `Service` (article_service.dfy) | `ArticleService` as a class over the repository: lookup, the recent lists, and the write path as methods that change the store |
| `ReaderController` (reader_controller.dfy) | the status decision of `GET /api/articles/{id}` and the two list endpoints |
| `Masonry` (masonry.dfy) | `calcNumCols` and the round-robin column effect, shared by `MosaicPage.jsx` and `MosaicComponent.jsx` |
| `MosaicPage`, `MosaicComponent`, `ArticlePage` | the status message, tile and element construction, and the paragraph split of the article body |
| `Scraper` (scraper_article.dfy) | the scraper's `Article` class: its field capture and the memoised `to_dict` |

Modelling choices:

- Instants are integer epoch seconds, and `isEqual` and `compareTo` compare them as integers.
- The clocks (`OffsetDateTime.now()` and `datetime.now()`) are a `now` parameter.
- A Java `null` is `None` wherever the code produces or tolerates one: the id, the body, the publication time and the image URL. The scraper's `get_image_url` returns `None` when a page has no image, the column accepts null, and the frontend tests the URL before showing it. The other fields (title, fetch time, source, article URL, category) are never null in the model.
- A thrown exception is the `Failure` side of a `Result`.

## Model

| member | source | states |
|---|---|---|
| Categories.AllCategoriesComplete | backend/src/main/java/news_compiler/entity/Category.java:7-23 | `values()` lists fifteen pairwise distinct constants and contains every constant |
| Categories.NameInjective | backend/src/main/java/news_compiler/entity/Category.java:7-23 | a constant's name identifies it: equal names mean the same constant |
| CategoryService.CapitalizedWords | backend/src/main/java/news_compiler/service/CategoryService.java:39-40 | one word per input word, in order, each `Capitalize`d: its first character upper-cased, the rest unchanged |
| CategoryService.FormatCategory | backend/src/main/java/news_compiler/service/CategoryService.java:33-46 | the loop throws `StringIndexOutOfBounds` exactly when some piece of Java's `split("_")` of the lower-cased name (trailing empty pieces removed) is empty; otherwise it returns the trimmed content of the builder after every word was appended capitalised and followed by a space |
| CategoryService.LabelShape | backend/src/main/java/news_compiler/service/CategoryService.java:41-45 | a label contains no underscore, and its first and last characters are not white space |
| CategoryService.LabelWords | backend/src/main/java/news_compiler/service/CategoryService.java:34-45 | for a name made of non-empty segments without white space, the label is the capitalised segments joined by single spaces; splitting it at spaces gives those words back, one per segment |
| CategoryService.TokensFormattable | backend/src/main/java/news_compiler/entity/Category.java:7-23 | every constant's name is formattable; its segments are the expected lower-case words, and its label is the expected one |
| CategoryService.GetCategories | backend/src/main/java/news_compiler/service/CategoryService.java:19-24 | fifteen labels, the i-th being the formatted name of the i-th constant in declaration order |
| CategoryService.CategoryLabels | backend/src/test/java/news_compiler/controller/CategoryControllerTest.java:39-54 | the endpoint serves exactly "United States Politics", "World Politics", "Science", …, "Other", in declaration order |
| Dto.Equals | backend/src/main/java/news_compiler/dto/ArticleDto.java:69-85 | another class or null gives false. With equal titles it throws exactly when this body is null; or when the bodies agree and either publication time is null; or when bodies, instants, source and article URL agree and this image URL is null. A normal result is true exactly when every field but the id agrees |
| Dto.EqualsIffSameContent | backend/src/main/java/news_compiler/dto/ArticleDto.java:77-84 | on DTOs with a body, a publication time and an image URL, `equals` returns normally, and it is true iff title, body, both instants, source, both URLs and category agree |
| Dto.EqualsIgnoresId | backend/src/main/java/news_compiler/dto/ArticleDto.java:63-85 | two DTOs that differ only in their ids are equal |
| Dto.EqualsReflexiveSymmetric | backend/src/main/java/news_compiler/dto/ArticleDto.java:77-84 | on comparable DTOs (body, publication time and image URL present) `equals` is reflexive and symmetric |
| Dto.EqualsThrowsOnUnpublished | backend/src/main/java/news_compiler/dto/ArticleDto.java:79 | a DTO without a publication time, which the service allows, throws even when compared with itself |
| Dto.EqualsThrowsOnNullBody | backend/src/main/java/news_compiler/dto/ArticleDto.java:78 | a DTO with a null body, such as a lite listing produces, throws against any DTO with the same title |
| Dto.EqualsThrowsOnNullImage | backend/src/main/java/news_compiler/dto/ArticleDto.java:83 | a DTO with a body and a publication time but no image URL throws even when compared with itself |
| Dto.EqualsNullSafe | backend/src/main/java/news_compiler/dto/ArticleDto.java:63-67 | the evidently intended comparison, null-safe on every nullable field: false against null, and on comparable DTOs the same answer as `equals` |
| Dto.EqualsNullSafeEquivalence | backend/src/main/java/news_compiler/dto/ArticleDto.java:63-67 | the null-safe comparison is reflexive, symmetric and transitive on all DTOs, and holds iff all fields but the id agree |
| Mapper.ArticleToDto | backend/src/main/java/news_compiler/mapper/ArticleMapper.java:16-28 | each of the nine fields, the id included, is copied unchanged |
| Mapper.DtoToArticle | backend/src/main/java/news_compiler/mapper/ArticleMapper.java:35-47 | each of the nine fields, the id included, is copied unchanged |
| Mapper.RoundTrips | backend/src/main/java/news_compiler/mapper/ArticleMapper.java:16-47 | mapping to a DTO and back, or to an entity and back, is the identity |
| Mapper.MappingKeepsIdApart | backend/src/main/java/news_compiler/mapper/ArticleMapper.java:35-47 | replacing the id commutes with the mapping, so the write path may clear the id after mapping |
| Repository.IndexOfTitle | backend/src/main/java/news_compiler/repository/ArticleRepository.java:30 | the index of the first row with the title, or -1 exactly when no row has it |
| Repository.Persist | backend/src/main/java/news_compiler/entity/Article.java:34-40 | `save` is refused exactly when another row already holds the title. An id some row has replaces that row in place. Otherwise the row is appended under the next generated id. A well-formed store stays well formed: ids distinct and below the counter, titles unique |
| Repository.AppendKeepsWellFormed | backend/src/main/java/news_compiler/entity/Article.java:38-40 | appending a title no row holds, under the next id, keeps ids and titles unique |
| Repository.ReplaceKeepsWellFormed | backend/src/main/java/news_compiler/entity/Article.java:38-40 | replacing a row by an article with its id keeps ids and titles unique when no other row has the title |
| Repository.ArticleRepository.FindById | backend/src/main/java/news_compiler/service/ArticleService.java:39 | some row is found iff a row has the id, and the row found has it |
| Repository.ArticleRepository.FindByTitle | backend/src/main/java/news_compiler/service/ArticleService.java:129-131 | a row is found iff some row has the title, and the row found has it; otherwise null |
| Repository.ArticleRepository.FindAll | backend/src/main/java/news_compiler/service/ArticleService.java:51 | every row, once, in enumeration order |
| Repository.ArticleRepository.Save | backend/src/main/java/news_compiler/service/ArticleService.java:136 | one more save is counted; the store becomes what `Persist` gives, or stays as it was with `DuplicateTitle`; the store invariant is kept |
| Service.Dtos | backend/src/main/java/news_compiler/service/ArticleService.java:51-52 | one DTO per row, in the rows' order, each the mapped row |
| Service.Prepared | backend/src/main/java/news_compiler/service/ArticleService.java:123-133 | the entity handed to `save` has the DTO's fields. Its id is cleared when no row has the title, and is that row's id otherwise |
| Service.Upsert | backend/src/main/java/news_compiler/service/ArticleService.java:122-138 | if a row has the title, that row gets every field from the DTO and keeps its id and place (same count). Otherwise one row is appended under a fresh id. The input id never matters, and well-formedness is kept |
| Service.SaveIsUpsert | backend/src/main/java/news_compiler/service/ArticleService.java:129-136 | on a well-formed store, saving the prepared entity never hits the unique-title constraint and performs the upsert |
| Service.UpsertIgnoresId | backend/src/main/java/news_compiler/service/ArticleService.java:125-126 | writing the same content under any other id has the same effect |
| Service.UpsertReadBack | backend/src/main/java/news_compiler/service/ArticleService.java:129-137 | after a write, looking up the title finds the written article, and so does looking up its id |
| Service.UpsertFreshId | backend/src/main/java/news_compiler/service/ArticleService.java:136 | a new row's id belongs to no earlier row |
| Service.UpsertAll | backend/src/main/java/news_compiler/service/ArticleService.java:103-113 | as many results as inputs, and the store stays well formed |
| Service.UpsertAllInOrder | backend/src/test/java/news_compiler/controller/ArticleWriterControllerTest.java:165-170 | result i is what writing input i returns on the store left by inputs 0 to i-1 |
| Service.ArticleService.GetArticleById | backend/src/main/java/news_compiler/service/ArticleService.java:33-41 | fails with `IllegalArgumentException` iff the id is null or negative (0 is accepted). Otherwise it finds an article iff a row has the id, and the article found is that row with that id |
| Service.ArticleService.GetRecentlyFetched | backend/src/main/java/news_compiler/service/ArticleService.java:49-80 | sorted by the comparator. It holds exactly the stored articles fetched after now minus 24 hours, each as often as it is stored. Each tie class is the recent members of that tie class among the stored rows, in enumeration order |
| Service.ArticleService.GetRecentlyFetchedLite | backend/src/main/java/news_compiler/service/ArticleService.java:88-95 | the same length and order as the recent list; element k is element k of it with the body set to null; the store is not changed |
| Service.ArticleService.WriteArticle | backend/src/main/java/news_compiler/service/ArticleService.java:122-138 | exactly one save; the new store is the upsert of the DTO; the result is the stored article as a DTO; the store invariant is kept |
| Service.ArticleService.WriteArticles | backend/src/main/java/news_compiler/service/ArticleService.java:103-113 | one save per input, in input order. The new store and the result list are those of the article-by-article upsert |
| Ranking.FilterRecent | backend/src/main/java/news_compiler/service/ArticleService.java:55-60 | an article is kept iff its fetch second is strictly after now minus 86400, keeping its multiplicity |
| Ranking.FilterRecentTied | backend/src/main/java/news_compiler/service/ArticleService.java:58-60 | the filter keeps the stored order: the recent list's tie class is the stored tie class with the old articles removed |
| Ranking.CompareInstants | backend/src/main/java/news_compiler/service/ArticleService.java:69 | negative iff the first instant is earlier, zero iff equal |
| Ranking.Compare | backend/src/main/java/news_compiler/service/ArticleService.java:66-77 | an article with a publication time precedes one without; two published ones are ordered newest published first, two unpublished ones newest fetched first; equal instants tie |
| Ranking.CompareIsKeyOrder | backend/src/main/java/news_compiler/service/ArticleService.java:66-77 | the comparator is the lexicographic order on (no publication time, minus the publication or fetch second): negative, zero and positive mean before, tied and after |
| Ranking.CompareIsTotalPreorder | backend/src/main/java/news_compiler/service/ArticleService.java:66-77 | the comparator is sign-antisymmetric and transitive, as `List.sort` requires |
| Ranking.SortArticles | backend/src/main/java/news_compiler/service/ArticleService.java:63-66 | the sort keeps the length and is a permutation |
| Ranking.SortedMeaning | backend/src/test/java/news_compiler/controller/ArticleReaderControllerTest.java:126-149 | in a sorted list the published articles come first, newest published first, and the unpublished ones follow, newest fetched first |
| Ranking.RecentlyFetched | backend/src/main/java/news_compiler/service/ArticleService.java:55-79 | the window followed by the sort: sorted, the same members and multiplicities as the filter, and stable with respect to the input order |
| StableSort.SortPermutes | backend/src/main/java/news_compiler/service/ArticleService.java:66 | the sort is a permutation of its input |
| StableSort.SortSorted | backend/src/main/java/news_compiler/service/ArticleService.java:66 | under a total preorder the result is in comparator order |
| StableSort.SortStable | backend/src/main/java/news_compiler/service/ArticleService.java:63-66 | the elements tied with any given one appear in the result in their input order |
| ReaderController.StatusCode | backend/src/main/java/news_compiler/controller/ArticleReaderController.java:54-66 | 200 iff ok, 400 iff bad request, 404 iff not found |
| ReaderController.Decide | backend/src/main/java/news_compiler/controller/ArticleReaderController.java:57-65 | a null or negative id is a bad request whatever the lookup says; a valid id the lookup finds nothing for is not found; ok exactly for a valid id with a found article, which is the one returned |
| ReaderController.ArticleReaderController.GetRecentArticles | backend/src/main/java/news_compiler/controller/ArticleReaderController.java:34-37 | the service's recent list unchanged, hence sorted and holding exactly the recent stored articles |
| ReaderController.ArticleReaderController.GetRecentArticlesLite | backend/src/main/java/news_compiler/controller/ArticleReaderController.java:44-47 | the service's lite list: the recent list with every body null |
| ReaderController.ArticleReaderController.GetArticleById | backend/src/main/java/news_compiler/controller/ArticleReaderController.java:54-66 | 400 iff the id is null or negative. 404 iff the id is valid and no row has it. Otherwise 200 with exactly the service's article, whose id is the requested one. The service's exception never reaches the client |
| ReaderController.ArticleReaderController.InvalidIds | backend/src/test/java/news_compiler/controller/ArticleReaderControllerTest.java:212-223 | id -1 gives 400, and 1000 on a store whose generator has not reached 1000 gives 404 |
| Masonry.CalcNumCols | frontend/src/pages/mosaic/MosaicPage.jsx:50-58 | 1 up to 600 pixels; above that the number n ≥ 2 with 300·n ≤ width < 300·(n+1); never below 1. `MosaicComponent.jsx:51-59` is the same function |
| Masonry.Distribute | frontend/src/pages/mosaic/MosaicPage.jsx:80-95 | exactly `numCols` columns; column c holds the items at positions c, c+n, c+2n, … in order. `MosaicComponent.jsx:90-105` is the same loop |
| Masonry.ColumnStep | frontend/src/pages/mosaic/MosaicPage.jsx:89-92 | placing item i appends it to column i mod n and leaves the other columns as they were |
| Masonry.ColumnPosition | frontend/src/pages/mosaic/MosaicPage.jsx:88-92 | item i is in column i mod n at row i / n |
| Masonry.ColumnOrder | frontend/src/pages/mosaic/MosaicPage.jsx:88-92 | of two items in the same column, the earlier one in the input is in the earlier row |
| Masonry.ColumnSize | frontend/src/components/MosaicComponent.jsx:98-102 | column c holds ⌊len/n⌋ items, plus one when c < len mod n |
| Masonry.ColumnsBalanced | frontend/src/components/MosaicComponent.jsx:98-102 | column sizes differ by at most one, and no column is longer than one before it |
| Masonry.TotalCount | frontend/src/components/MosaicComponent.jsx:98-102 | the columns together hold as many items as the input: none lost, none duplicated |
| MosaicPage.GetStatusMessage | frontend/src/pages/mosaic/MosaicPage.jsx:24-43 | the loader while loading, whatever the error; otherwise the error box for a non-empty error; null iff neither |
| MosaicPage.BuildTiles | frontend/src/pages/mosaic/MosaicPage.jsx:61-77 | for a present, non-empty list, one tile per article in order carrying its id, title, image URL and source; otherwise the previous tiles stay |
| MosaicComponent.BuildArticleElements | frontend/src/components/MosaicComponent.jsx:66-82 | one element per article in response order, with its id, title and source. It has an image iff the URL is truthy (neither null nor empty), and the image is that URL |
| ArticlePage.CreateBodyTags | frontend/src/pages/article/ArticlePage.jsx:35-41 | nothing for a null or empty body; otherwise paragraph k holds the k-th piece of the split at blank lines and has key k |
| ArticlePage.ParagraphsRejoin | frontend/src/pages/article/ArticlePage.jsx:37 | joining the paragraphs with `"\n\n"` gives the body back |
| ArticlePage.ParagraphCount | frontend/src/pages/article/ArticlePage.jsx:37-39 | one paragraph more than there are non-overlapping `"\n\n"` occurrences, with keys 0 to n-1 |
| ArticlePage.ParagraphsHaveNoBreak | frontend/src/pages/article/ArticlePage.jsx:37 | no paragraph contains `"\n\n"` |
| Scraper.ValueIsName | scraper/src/Categories.py:9-23 | each scraper category's value is the name of the backend constant, and only that constant has that name |
| Scraper.Article.constructor | scraper/src/Article.py:9-42 | the arguments are stored as given; the fetch time is the construction-time clock reading; the cache starts empty |
| Scraper.Article.Payload | scraper/src/Article.py:53-62 | exactly the eight API keys and no id. The values are the fields, with the image URL or None, the publication time's ISO text or None, the fetch time's ISO text, and the category's token name |
| Scraper.Article.ToDict | scraper/src/Article.py:44-64 | the first call builds the payload from the current fields and caches it. Later calls return the cached dictionary unchanged, whatever the fields hold by then |

## Left out

- Spring wiring, dependency injection, JPA and the MySQL database: the repository is a class over an in-memory store offering `findById`, `findByTitle`, `findAll` and `save`.
- `findAllByOrderByDatePublishedDesc` (ArticleRepository.java:21-22): no code calls this query.
- The race between `findByTitle` and `save` under concurrent requests: the model is sequential. The database's own unique-title constraint appears only as `save`'s `DuplicateTitle` error, which the write path never triggers.
- Wall clocks: `OffsetDateTime.now()` and `datetime.now().astimezone()` are the `now` parameters.
- Time-zone offsets, precision below a second, and `OffsetDateTime.compareTo`'s local-time tie-break for equal instants: instants are integer epoch seconds.
- `List.sort`'s merge sort: it is a stable insertion sort on a `seq`. The two agree on the result for a total preorder, but the in-place update of the `ArrayList` is not modelled.
- Dto.Equals: title, fetch time, source, article URL and category are never null in the model, so the NullPointerExceptions that `title.equals`, `timeFetched.isEqual`, `source.equals`, `articleUrl.equals` and `category.equals` raise on a null receiver are not modelled. Neither is the `false` that `equals` returns when only the argument's field is null.
- Scraper.Article.ToDict: `to_dict` returns the same dictionary object on every call, so a caller's change to it is seen by later callers. The model returns the cached map as a value and does not capture that aliasing.
- `Article.__init__` is annotated with `image_url: str`, but the site scrapers pass `None` when a page has no image; the model's image URL is optional.
- DTOs and lists are values, so there is no aliasing. `setBody(null)` on the fresh DTOs of the lite list cannot reach the stored rows, which the model keeps by construction.
- HTTP routing and JSON (de)serialisation: the framework produces the 400 for `/api/articles/null`, before the handler runs. The controller receives a nullable id.
- `ArticleWriterController`, `CategoryController` and `HealthController`: pure delegation to the modelled services.
- ReaderController.ArticleReaderController.GetArticleById: the service lookup is evaluated for every id, but its result is used only for a non-null, non-negative one. This matches the handler, which calls the service only then.
- CategoryService.FormatCategory: `toLowerCase` and `toUpperCase` are modelled on ASCII letters only, because the names are ASCII constants. Java's no-argument forms follow the default locale; the labels assume one that maps ASCII letters to ASCII letters (under a Turkish locale `I` lower-cases to a dotless `ı`).
- Scraper site classes, `scraper/main.py` and `scraper/src/sites/__init__.py`: HTML scraping, network, files, process pools and dynamic imports.
- `Article.__str__`, `json.dumps` and `isoformat`: a date is represented by its ISO text. Python's dictionary key order is not modelled, because the payload is a map.
- React rendering, hooks, context, axios calls, resize listeners, navigation, `BackButton.jsx`, `App.jsx` routes and `ArticleTile.jsx` markup.
- `getGeneralErrors` in `MosaicComponent.jsx` and `ArticlePage.jsx`: markup only.
- Masonry.Distribute requires at least one column. The source guarantees this through `calcNumCols`, which `Masonry.CalcNumCols` proves never returns less than 1.
- `window.innerWidth` is an integer parameter.
- Test infrastructure: the MySQL container and the Gson adapter.

## Findings

| source | as written | input that shows it | evidently intended | confidence | as-written member | corrected member |
|---|---|---|---|---|---|---|
| backend/src/main/java/news_compiler/dto/ArticleDto.java:79 | `equals` calls `timePublished.isEqual(...)` and `body.equals(...)` without null checks, although the service explicitly allows a null publication time and the lite listing nulls every body | a DTO with a body and a null `timePublished`, compared with itself, throws `NullPointerException` instead of returning true | a null-safe comparison ignoring the id, which is an equivalence on all DTOs | not executed | Dto.EqualsThrowsOnUnpublished | Dto.EqualsNullSafeEquivalence |
| backend/src/main/java/news_compiler/dto/ArticleDto.java:83 | `equals` calls `imageUrl.equals(...)` although a scraped article without an image is sent and stored with a null image URL | a DTO with a body, a publication time and a null `imageUrl`, compared with itself, throws `NullPointerException` | the same null-safe comparison | not executed | Dto.EqualsThrowsOnNullImage | Dto.EqualsNullSafeEquivalence |
