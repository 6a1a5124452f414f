/**
 * `ArticlePage` (frontend pages/article/ArticlePage.jsx): the body of one article cut into
 * paragraphs at every blank line, `body.split("\n\n")`, one keyed `<p>` per piece.
 */
module ArticlePage {
  import opened Wrappers
  import opened Strings

  /** The paragraph separator. */
  const Break: string := "\n\n"

  /** One `<p className="articleBody">`: its React key and its text. */
  datatype Paragraph = Paragraph(key: int, text: string)

  /**
   * `createBodyTags`: nothing (`undefined`) for a falsy body, i.e. a missing or empty one;
   * otherwise one paragraph per piece of the split, keyed by its index.
   */
  function CreateBodyTags(body: Option<string>): (tags: Option<seq<Paragraph>>)
    ensures tags.None? <==> body.None? || body.value == ""
    ensures tags.Some? ==>
      |tags.value| == |Split(body.value, Break)| &&
      forall k :: 0 <= k < |tags.value| ==> tags.value[k] == Paragraph(k, Split(body.value, Break)[k])
  {
    if body.None? || body.value == "" then None
    else
      var parts := Split(body.value, Break);
      Some(seq(|parts|, k requires 0 <= k < |parts| => Paragraph(k, parts[k])))
  }

  /** The paragraph texts, in order. */
  function Texts(tags: seq<Paragraph>): (texts: seq<string>)
    ensures |texts| == |tags|
    ensures forall k :: 0 <= k < |tags| ==> texts[k] == tags[k].text
  {
    seq(|tags|, k requires 0 <= k < |tags| => tags[k].text)
  }

  /** Putting the blank lines back between the paragraphs gives the body again. */
  lemma ParagraphsRejoin(body: string)
    requires body != ""
    ensures Join(Texts(CreateBodyTags(Some(body)).value), Break) == body
  {
    var texts := Texts(CreateBodyTags(Some(body)).value);
    assert texts == Split(body, Break);
    JoinSplit(body, Break);
  }

  /** There is one paragraph more than there are blank-line separators, and the keys are 0 to n - 1. */
  lemma ParagraphCount(body: string)
    requires body != ""
    ensures |CreateBodyTags(Some(body)).value| == Occurrences(body, Break) + 1
    ensures forall k :: 0 <= k < |CreateBodyTags(Some(body)).value| ==> CreateBodyTags(Some(body)).value[k].key == k
  {
    SplitCount(body, Break);
  }

  /** No paragraph holds a blank-line separator. */
  lemma ParagraphsHaveNoBreak(body: string)
    requires body != ""
    ensures forall k :: 0 <= k < |CreateBodyTags(Some(body)).value| ==> !Contains(CreateBodyTags(Some(body)).value[k].text, Break)
  {
    SplitPiecesAvoidSeparator(body, Break);
  }
}
