/**
 * The stored article record (backend entity/Article.java). Instants are epoch seconds.
 * `id`, `body`, `timePublished` and `imageUrl` may be null in the source and are options here.
 */
module Entity {
  import opened Wrappers
  import opened Categories

  datatype Article = Article(
    id: Option<int>,
    title: string,
    body: Option<string>,
    timePublished: Option<int>,
    timeFetched: int,
    source: string,
    articleUrl: string,
    imageUrl: Option<string>,
    category: Category)

}
