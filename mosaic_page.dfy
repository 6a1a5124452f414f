/**
 * `MosaicPage` (frontend pages/mosaic/MosaicPage.jsx): the status line shown above the grid and
 * the tiles built from the articles the data context provides. The columns are laid out by
 * `Masonry.Distribute`.
 */
module MosaicPage {
  import opened Wrappers
  import opened Dto

  /** The `ArticleTile` props: everything a tile shows or links to. */
  datatype Tile = Tile(id: Option<int>, title: string, imageUrl: Option<string>, source: string)

  /** The loading indicator, or the error box with its text. */
  datatype StatusMessage = Loader | ErrorBox(message: string)

  /**
   * `getStatusMessage`: the loader while loading, whatever the error; else the error box when
   * the error is a non-empty string; else nothing (`null`).
   */
  function GetStatusMessage(loading: bool, error: Option<string>): (m: Option<StatusMessage>)
    ensures loading ==> m == Some(Loader)
    ensures !loading && error.Some? && error.value != "" ==> m == Some(ErrorBox(error.value))
    ensures m.None? <==> !loading && (error.None? || error.value == "")
  {
    if loading then Some(Loader)
    else if error.Some? && error.value != "" then Some(ErrorBox(error.value))
    else None
  }

  /**
   * The article effect: for a present, non-empty list one tile per article, in order; otherwise
   * the tiles already shown stay as they are.
   */
  method BuildTiles(articles: Option<seq<ArticleDto>>, previous: seq<Tile>) returns (tiles: seq<Tile>)
    ensures articles.Some? && |articles.value| > 0 ==>
      |tiles| == |articles.value| &&
      forall k :: 0 <= k < |tiles| ==>
        tiles[k] == Tile(articles.value[k].id, articles.value[k].title, articles.value[k].imageUrl, articles.value[k].source)
    ensures articles.None? || |articles.value| == 0 ==> tiles == previous
  {
    tiles := previous;
    if articles.Some? && |articles.value| > 0 {
      var list := articles.value;
      var built: seq<Tile> := [];
      for k := 0 to |list|
        invariant |built| == k
        invariant forall j :: 0 <= j < k ==> built[j] == Tile(list[j].id, list[j].title, list[j].imageUrl, list[j].source)
      {
        built := built + [Tile(list[k].id, list[k].title, list[k].imageUrl, list[k].source)];
      }
      tiles := built;
    }
  }
}
