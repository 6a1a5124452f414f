/**
 * `ArticleReaderController` (backend controller/ArticleReaderController.java): the status
 * decision of `GET /api/articles/{id}` and the two list endpoints, which hand the service's
 * lists back unchanged.
 */
module ReaderController {
  import opened Wrappers
  import opened Dto
  import opened StableSort
  import opened Ranking
  import opened Repository
  import opened Service

  /** `ResponseEntity.ok(article)`, `badRequest()` and `notFound()`. */
  datatype Response = Ok(article: ArticleDto) | BadRequest | NotFound

  /** The HTTP status each response carries. */
  function StatusCode(r: Response): (code: int)
    ensures code == 200 <==> r.Ok?
    ensures code == 400 <==> r.BadRequest?
    ensures code == 404 <==> r.NotFound?
  {
    match r
    case Ok(_) => 200
    case BadRequest => 400
    case NotFound => 404
  }

  /**
   * The handler's branching on the id and on what the service answered; the answer is looked at
   * only once the id has passed the null and sign check. The service refuses only the ids that
   * check already turned away, so the `Failure` branch is never taken from the handler
   * (`ArticleReaderController.GetArticleById` proves it); in the source the exception would
   * propagate out of the handler.
   */
  function Decide(id: Option<int>, found: Result<Option<ArticleDto>, IllegalArgumentException>): (r: Response)
    ensures id.None? || id.value < 0 ==> r.BadRequest?
    ensures id.Some? && id.value >= 0 && found == Success(None) ==> r.NotFound?
    ensures r.Ok? <==> id.Some? && id.value >= 0 && found.Success? && found.value.Some?
    ensures r.Ok? ==> found == Success(Some(r.article))
  {
    if id.None? || id.value < 0 then BadRequest
    else if found.Failure? then BadRequest
    else if found.value.None? then NotFound
    else Ok(found.value.value)
  }

  class ArticleReaderController {
    const articleService: ArticleService

    constructor (service: ArticleService)
      ensures articleService == service
    {
      articleService := service;
    }

    /** `GET /recent`: the service's recent list, as it is. */
    function GetRecentArticles(now: int): (articles: seq<ArticleDto>)
      reads articleService.articleRepository
      ensures articles == articleService.GetRecentlyFetched(now)
      ensures Sorted(Compare, articles)
      ensures forall x :: x in articles <==> x in Dtos(articleService.articleRepository.rows) && FetchedWithinDay(x, now)
    {
      articleService.GetRecentlyFetched(now)
    }

    /** `GET /recent/lite`: the service's lite list, as it is. */
    method GetRecentArticlesLite(now: int) returns (articles: seq<ArticleDto>)
      ensures |articles| == |GetRecentArticles(now)|
      ensures forall k :: 0 <= k < |articles| ==> articles[k] == GetRecentArticles(now)[k].(body := None)
    {
      articles := articleService.GetRecentlyFetchedLite(now);
    }

    /**
     * `GET /{id}`: a null or negative id is a bad request and the service is not asked; an id
     * the service finds nothing for is not found; otherwise the service's article.
     */
    function GetArticleById(id: Option<int>): (r: Response)
      reads articleService.articleRepository
      ensures r.BadRequest? <==> id.None? || id.value < 0
      ensures r.NotFound? <==>
        id.Some? && id.value >= 0 && forall k :: 0 <= k < |articleService.articleRepository.rows| ==>
          articleService.articleRepository.rows[k].id != id
      ensures r.Ok? ==> articleService.GetArticleById(id) == Success(Some(r.article))
      ensures r.Ok? ==> r.article.id == id
      ensures articleService.GetArticleById(id).Failure? ==> r.BadRequest?
    {
      Decide(id, articleService.GetArticleById(id))
    }

    /**
     * The invalid-id requests of the controller's tests: -1 is refused with 400, and 1000 on a
     * store whose generator has not reached 1000 (three rows, say) is 404.
     */
    lemma InvalidIds()
      requires articleService.articleRepository.Valid()
      requires articleService.articleRepository.nextId <= 1000
      ensures StatusCode(GetArticleById(Some(-1))) == 400
      ensures StatusCode(GetArticleById(Some(1000))) == 404
    {
      var rows := articleService.articleRepository.rows;
      forall k | 0 <= k < |rows| ensures rows[k].id != Some(1000) {
        assert rows[k].id.value < articleService.articleRepository.nextId;
      }
    }
  }
}
