/**
 * `MosaicComponent` (frontend components/MosaicComponent.jsx), the older version of the mosaic:
 * the article elements built from the recent list. Its column count and column layout are the
 * ones of `MosaicPage`, modelled once in `Masonry`.
 */
module MosaicComponent {
  import opened Wrappers
  import opened Dto

  /** One clickable article element: its key and link id, its heading, its optional image and its source line. */
  datatype Element = Element(id: Option<int>, title: string, image: Option<string>, source: string)

  /** The image is rendered only for a truthy URL, one that is neither null nor empty (`article.imageUrl && <img …>`). */
  method BuildArticleElements(articles: seq<ArticleDto>) returns (htmls: seq<Element>)
    ensures |htmls| == |articles|
    ensures forall k :: 0 <= k < |htmls| ==>
      htmls[k].id == articles[k].id && htmls[k].title == articles[k].title && htmls[k].source == articles[k].source
    ensures forall k :: 0 <= k < |htmls| ==>
      (htmls[k].image.Some? <==> articles[k].imageUrl.Some? && articles[k].imageUrl.value != "") &&
      (htmls[k].image.Some? ==> articles[k].imageUrl == htmls[k].image)
  {
    htmls := [];
    for k := 0 to |articles|
      invariant |htmls| == k
      invariant forall j :: 0 <= j < k ==>
        htmls[j].id == articles[j].id && htmls[j].title == articles[j].title && htmls[j].source == articles[j].source
      invariant forall j :: 0 <= j < k ==>
        (htmls[j].image.Some? <==> articles[j].imageUrl.Some? && articles[j].imageUrl.value != "") &&
        (htmls[j].image.Some? ==> articles[j].imageUrl == htmls[j].image)
    {
      var article := articles[k];
      var image := if article.imageUrl.Some? && article.imageUrl.value != "" then article.imageUrl else None;
      htmls := htmls + [Element(article.id, article.title, image, article.source)];
    }
  }
}
