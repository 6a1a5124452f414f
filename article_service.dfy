/**
 * `ArticleService` (backend service/ArticleService.java): lookup by id, the recent listing and
 * its body-less variant, and the upsert-by-title write path, over the modelled repository.
 */
module Service {
  import opened Wrappers
  import opened Entity
  import opened Dto
  import opened Mapper
  import opened Repository
  import opened StableSort
  import opened Ranking

  /** Thrown for a null or negative id. */
  datatype IllegalArgumentException = IllegalArgumentException

  /** `findAll().stream().map(ArticleMapper::articleToDto)`: the rows as DTOs, in order. */
  function Dtos(rows: seq<Article>): (ds: seq<ArticleDto>)
    ensures |ds| == |rows|
    ensures forall k :: 0 <= k < |rows| ==> ds[k] == ArticleToDto(rows[k])
  {
    seq(|rows|, k requires 0 <= k < |rows| => ArticleToDto(rows[k]))
  }

  /**
   * The entity `writeArticle` hands to `save`: the DTO's fields with the id cleared, then set
   * to the id of the row that already has the title, if there is one.
   */
  function Prepared(s: Store, d: ArticleDto): (a: Article)
    ensures a == DtoToArticle(d).(id := a.id)
    ensures IndexOfTitle(s.rows, d.title) < 0 ==> a.id.None?
    ensures IndexOfTitle(s.rows, d.title) >= 0 ==> a.id == s.rows[IndexOfTitle(s.rows, d.title)].id
  {
    var cleared := DtoToArticle(d).(id := None);
    var k := IndexOfTitle(s.rows, cleared.title);
    if k >= 0 then cleared.(id := s.rows[k].id) else cleared
  }

  /**
   * What writing one article does: a row with the same title gets every field from the DTO and
   * keeps its id and place; otherwise a new row with the next id is appended. The input id is ignored.
   */
  function Upsert(s: Store, d: ArticleDto): (r: Saved)
    ensures r.article == DtoToArticle(d).(id := r.article.id)
    ensures var k := IndexOfTitle(s.rows, d.title);
      k >= 0 ==> (r.article.id == s.rows[k].id && r.store.nextId == s.nextId
                  && r.store.rows == s.rows[k := r.article])
    ensures IndexOfTitle(s.rows, d.title) < 0 ==>
      r.article.id == Some(s.nextId) && r.store.nextId == s.nextId + 1 && r.store.rows == s.rows + [r.article]
    ensures WellFormed(s) ==> WellFormed(r.store)
  {
    var a := DtoToArticle(d).(id := None);
    var k := IndexOfTitle(s.rows, d.title);
    if k >= 0 then
      var b := a.(id := s.rows[k].id);
      ReplaceByTitleKeepsWellFormed(s, k, b);
      Saved(Store(s.rows[k := b], s.nextId), b)
    else
      AppendKeepsWellFormed(s, a);
      Saved(Store(s.rows + [a.(id := Some(s.nextId))], s.nextId + 1), a.(id := Some(s.nextId)))
  }

  /** In a well-formed store only the row found by title holds that title. */
  lemma TitleOnlyAt(s: Store, k: int, b: Article)
    requires WellFormed(s) && 0 <= k < |s.rows|
    requires s.rows[k].title == b.title && s.rows[k].id == b.id
    ensures !TitleTaken(s.rows, b)
  {
    forall j | 0 <= j < |s.rows| && s.rows[j].title == b.title ensures s.rows[j].id == b.id {
      assert j == k;
    }
  }

  /** Replacing the row that has the article's title, keeping that row's id, keeps the store well formed. */
  lemma ReplaceByTitleKeepsWellFormed(s: Store, k: int, b: Article)
    requires 0 <= k < |s.rows| && s.rows[k].title == b.title && s.rows[k].id == b.id
    ensures WellFormed(s) ==> WellFormed(Store(s.rows[k := b], s.nextId))
  {
    if WellFormed(s) {
      TitleOnlyAt(s, k, b);
      ReplaceKeepsWellFormed(s, k, b);
    }
  }

  /** In a well-formed store a row is the first and only one with its id. */
  lemma IdOnlyAt(s: Store, k: int)
    requires WellFormed(s) && 0 <= k < |s.rows|
    ensures IndexOfId(s.rows, s.rows[k].id.value) == k
  {
  }

  /** `save` on the prepared entity never hits the unique-title constraint and performs the upsert. */
  lemma SaveIsUpsert(s: Store, d: ArticleDto)
    requires WellFormed(s)
    ensures Persist(s, Prepared(s, d)) == Success(Upsert(s, d))
  {
    var k := IndexOfTitle(s.rows, d.title);
    var a := Prepared(s, d);
    if k >= 0 {
      TitleOnlyAt(s, k, a);
      IdOnlyAt(s, k);
    } else {
      assert !TitleTaken(s.rows, a);
    }
  }

  /** Writing the same content with another id changes nothing: the id is disregarded. */
  lemma UpsertIgnoresId(s: Store, d: ArticleDto, id: Option<int>)
    ensures Upsert(s, d.(id := id)) == Upsert(s, d)
  {
  }

  /** After a write, looking the title up finds the written article, and its id finds it too. */
  lemma UpsertReadBack(s: Store, d: ArticleDto)
    requires WellFormed(s)
    ensures var r := Upsert(s, d);
      && IndexOfTitle(r.store.rows, d.title) >= 0
      && r.store.rows[IndexOfTitle(r.store.rows, d.title)] == r.article
      && IndexOfId(r.store.rows, r.article.id.value) == IndexOfTitle(r.store.rows, d.title)
  {
    var r := Upsert(s, d);
    var k := IndexOfTitle(s.rows, d.title);
    var at := if k >= 0 then k else |s.rows|;
    assert r.store.rows[at] == r.article;
    TitleOnlyIndex(r.store, at);
    IdOnlyAt(r.store, at);
  }

  lemma TitleOnlyIndex(s: Store, k: int)
    requires WellFormed(s) && 0 <= k < |s.rows|
    ensures IndexOfTitle(s.rows, s.rows[k].title) == k
  {
  }

  /** A new row's id was not in use before. */
  lemma UpsertFreshId(s: Store, d: ArticleDto)
    requires WellFormed(s) && IndexOfTitle(s.rows, d.title) < 0
    ensures forall j :: 0 <= j < |s.rows| ==> s.rows[j].id != Upsert(s, d).article.id
  {
  }

  datatype Written = Written(store: Store, articles: seq<ArticleDto>)

  /** `writeArticles`: each article in input order, each on the store the previous ones left. */
  function UpsertAll(s: Store, ds: seq<ArticleDto>): (r: Written)
    ensures |r.articles| == |ds|
    ensures WellFormed(s) ==> WellFormed(r.store)
    decreases |ds|
  {
    if |ds| == 0 then Written(s, [])
    else
      var w := UpsertAll(s, ds[..|ds| - 1]);
      var u := Upsert(w.store, ds[|ds| - 1]);
      Written(u.store, w.articles + [ArticleToDto(u.article)])
  }

  /** Element i of the result is what writing input i returns after inputs 0..i-1 were written. */
  lemma {:induction false} UpsertAllInOrder(s: Store, ds: seq<ArticleDto>, i: int)
    requires 0 <= i < |ds|
    ensures UpsertAll(s, ds).articles[i] == ArticleToDto(Upsert(UpsertAll(s, ds[..i]).store, ds[i]).article)
    decreases |ds|
  {
    var prefix := ds[..|ds| - 1];
    if i < |ds| - 1 {
      UpsertAllInOrder(s, prefix, i);
      assert prefix[..i] == ds[..i];
    } else {
      assert prefix == ds[..i];
    }
  }

  class ArticleService {
    const articleRepository: ArticleRepository

    constructor (repository: ArticleRepository)
      ensures articleRepository == repository
    {
      articleRepository := repository;
    }

    /** `getArticleById`: a null or negative id is refused; otherwise the row with that id, if any. */
    function GetArticleById(id: Option<int>): (r: Result<Option<ArticleDto>, IllegalArgumentException>)
      reads articleRepository
      ensures r.Failure? <==> id.None? || id.value < 0
      ensures r.Success? ==>
        (r.value.Some? <==> exists k :: 0 <= k < |articleRepository.rows| && articleRepository.rows[k].id == id)
      ensures r.Success? && r.value.Some? ==>
        r.value.value.id == id && DtoToArticle(r.value.value) in articleRepository.rows
    {
      if id.None? || id.value < 0 then Failure(IllegalArgumentException)
      else
        match articleRepository.FindById(id.value)
        case None => Success(None)
        case Some(article) => Success(Some(ArticleToDto(article)))
    }

    /**
     * `getRecentlyFetched`: the rows fetched within 24 hours of `now`, as DTOs, published ones
     * first, newest first, ties in enumeration order.
     */
    function GetRecentlyFetched(now: int): (articles: seq<ArticleDto>)
      reads articleRepository
      ensures Sorted(Compare, articles)
      ensures forall x :: x in articles <==> x in Dtos(articleRepository.rows) && FetchedWithinDay(x, now)
      ensures forall x {:trigger multiset(articles)[x]} ::
        multiset(articles)[x] == if FetchedWithinDay(x, now) then multiset(Dtos(articleRepository.rows))[x] else 0
      ensures forall y :: Tied(Compare, articles, y) == Tied(Compare, FilterRecent(Dtos(articleRepository.rows), now), y)
      ensures forall y :: Tied(Compare, articles, y) == FilterRecent(Tied(Compare, Dtos(articleRepository.rows), y), now)
    {
      RecentlyFetched(Dtos(articleRepository.FindAll()), now)
    }

    /** `getRecentlyFetchedLite`: the same list, element by element, with every body set to null. */
    method GetRecentlyFetchedLite(now: int) returns (articles: seq<ArticleDto>)
      ensures |articles| == |GetRecentlyFetched(now)|
      ensures forall k :: 0 <= k < |articles| ==> articles[k] == GetRecentlyFetched(now)[k].(body := None)
    {
      articles := GetRecentlyFetched(now);
      ghost var full := articles;
      for k := 0 to |articles|
        invariant |articles| == |full|
        invariant forall j :: 0 <= j < k ==> articles[j] == full[j].(body := None)
        invariant forall j :: k <= j < |articles| ==> articles[j] == full[j]
      {
        articles := articles[k := articles[k].(body := None)];
      }
    }

    /** `writeArticle`: one save of the prepared entity; returns the stored article as a DTO. */
    method WriteArticle(articleDto: ArticleDto) returns (written: ArticleDto)
      requires articleRepository.Valid()
      modifies articleRepository
      ensures articleRepository.Valid()
      ensures articleRepository.State() == Upsert(old(articleRepository.State()), articleDto).store
      ensures written == ArticleToDto(Upsert(old(articleRepository.State()), articleDto).article)
      ensures articleRepository.saves == old(articleRepository.saves) + 1
    {
      ghost var s := articleRepository.State();
      var article := DtoToArticle(articleDto);
      article := article.(id := None);
      if articleRepository.FindByTitle(article.title).Some? {
        var existingArticle := articleRepository.FindByTitle(article.title).value;
        article := article.(id := existingArticle.id);
      }
      assert article == Prepared(s, articleDto);
      SaveIsUpsert(s, articleDto);
      var saved := articleRepository.Save(article);
      match saved {
        case Success(writtenArticle) =>
          written := ArticleToDto(writtenArticle);
        case Failure(_) =>
          assert false;
      }
    }

    /** `writeArticles`: `writeArticle` on each input in order, collecting the results. */
    method WriteArticles(articles: seq<ArticleDto>) returns (writtenArticles: seq<ArticleDto>)
      requires articleRepository.Valid()
      modifies articleRepository
      ensures articleRepository.Valid()
      ensures articleRepository.State() == UpsertAll(old(articleRepository.State()), articles).store
      ensures writtenArticles == UpsertAll(old(articleRepository.State()), articles).articles
      ensures articleRepository.saves == old(articleRepository.saves) + |articles|
    {
      ghost var s := articleRepository.State();
      writtenArticles := [];
      for i := 0 to |articles|
        invariant articleRepository.Valid()
        invariant articleRepository.State() == UpsertAll(s, articles[..i]).store
        invariant writtenArticles == UpsertAll(s, articles[..i]).articles
        invariant articleRepository.saves == old(articleRepository.saves) + i
      {
        assert articles[..i + 1][..i] == articles[..i];
        var written := WriteArticle(articles[i]);
        writtenArticles := writtenArticles + [written];
      }
      assert articles[..|articles|] == articles;
    }
  }
}
