/** Field-by-field conversion between the stored record and the DTO (backend mapper/ArticleMapper.java). */
module Mapper {
  import opened Wrappers
  import opened Entity
  import opened Dto

  /** `articleToDto`: all nine fields, the id included, are copied. */
  function ArticleToDto(a: Article): (d: ArticleDto)
    ensures d.id == a.id && d.title == a.title && d.body == a.body
    ensures d.timePublished == a.timePublished && d.timeFetched == a.timeFetched
    ensures d.source == a.source && d.articleUrl == a.articleUrl && d.imageUrl == a.imageUrl
    ensures d.category == a.category
  {
    ArticleDto(a.id, a.title, a.body, a.timePublished, a.timeFetched, a.source, a.articleUrl, a.imageUrl, a.category)
  }

  /** `dtoToArticle`: all nine fields, the id included, are copied. */
  function DtoToArticle(d: ArticleDto): (a: Article)
    ensures a.id == d.id && a.title == d.title && a.body == d.body
    ensures a.timePublished == d.timePublished && a.timeFetched == d.timeFetched
    ensures a.source == d.source && a.articleUrl == d.articleUrl && a.imageUrl == d.imageUrl
    ensures a.category == d.category
  {
    Article(d.id, d.title, d.body, d.timePublished, d.timeFetched, d.source, d.articleUrl, d.imageUrl, d.category)
  }

  /** Mapping there and back is the identity, in both directions. */
  lemma RoundTrips(a: Article, d: ArticleDto)
    ensures DtoToArticle(ArticleToDto(a)) == a
    ensures ArticleToDto(DtoToArticle(d)) == d
  {
  }

  /** The mapper commutes with replacing the id, so clearing or setting it can happen on either side. */
  lemma MappingKeepsIdApart(d: ArticleDto, id: Option<int>)
    ensures DtoToArticle(d.(id := id)) == DtoToArticle(d).(id := id)
    ensures ArticleToDto(DtoToArticle(d).(id := id)) == d.(id := id)
  {
  }
}
