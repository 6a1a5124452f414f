/**
 * The article as the API exchanges it (backend dto/ArticleDto.java) and its `equals`, which
 * ignores the id and compares instants.
 */
module Dto {
  import opened Wrappers
  import opened Categories

  datatype ArticleDto = ArticleDto(
    id: Option<int>,
    title: string,
    body: Option<string>,
    timePublished: Option<int>,
    timeFetched: int,
    source: string,
    articleUrl: string,
    imageUrl: Option<string>,
    category: Category)

  /** Dereferencing a null field. */
  datatype NullPointerException = NullPointerException

  /** Every field but the id agrees. */
  predicate SameContent(d: ArticleDto, e: ArticleDto)
  {
    d.(id := e.id) == e
  }

  /** The nullable fields `equals` dereferences on this side or on both are non-null. */
  predicate Comparable(d: ArticleDto)
  {
    d.body.Some? && d.timePublished.Some? && d.imageUrl.Some?
  }

  /**
   * `equals(obj)`, with `None` standing for null or an object of another class. The conjunction
   * is evaluated left to right. `body.equals` and `imageUrl.equals` throw when this side is null
   * and are false against a null argument; `timePublished.isEqual` throws when either side is null.
   */
  function Equals(self: ArticleDto, obj: Option<ArticleDto>): (r: Result<bool, NullPointerException>)
    ensures obj.None? ==> r == Success(false)
    ensures r.Failure? <==>
      && obj.Some? && self.title == obj.value.title
      && (|| self.body.None?
          || (&& self.body == obj.value.body
              && (|| !(self.timePublished.Some? && obj.value.timePublished.Some?)
                  || (&& self.timePublished == obj.value.timePublished
                      && self.timeFetched == obj.value.timeFetched
                      && self.source == obj.value.source
                      && self.articleUrl == obj.value.articleUrl
                      && self.imageUrl.None?))))
    ensures r.Success? && obj.Some? ==> (r.value <==> SameContent(self, obj.value))
  {
    match obj
    case None => Success(false)
    case Some(other) =>
      if self.title != other.title then Success(false)
      else if self.body.None? then Failure(NullPointerException)
      else if other.body.None? || self.body.value != other.body.value then Success(false)
      else if self.timePublished.None? || other.timePublished.None? then Failure(NullPointerException)
      else if || self.timePublished.value != other.timePublished.value
              || self.timeFetched != other.timeFetched
              || self.source != other.source
              || self.articleUrl != other.articleUrl
      then Success(false)
      else if self.imageUrl.None? then Failure(NullPointerException)
      else Success(
        && other.imageUrl.Some? && self.imageUrl.value == other.imageUrl.value
        && self.category == other.category)
  }

  /** On comparable DTOs `equals` returns normally and holds exactly when all fields but the id agree. */
  lemma EqualsIffSameContent(d: ArticleDto, e: ArticleDto)
    requires Comparable(d) && Comparable(e)
    ensures Equals(d, Some(e)) == Success(SameContent(d, e))
  {
  }

  /** Two DTOs that differ only in their ids are equal. */
  lemma EqualsIgnoresId(d: ArticleDto, i: Option<int>, j: Option<int>)
    requires Comparable(d)
    ensures Equals(d.(id := i), Some(d.(id := j))) == Success(true)
  {
  }

  /** Reflexive and symmetric where it returns normally. */
  lemma EqualsReflexiveSymmetric(d: ArticleDto, e: ArticleDto)
    requires Comparable(d) && Comparable(e)
    ensures Equals(d, Some(d)) == Success(true)
    ensures Equals(d, Some(e)) == Equals(e, Some(d))
  {
  }

  /** A DTO with no publication time cannot be compared even with itself. */
  lemma EqualsThrowsOnUnpublished(d: ArticleDto)
    requires d.body.Some? && d.timePublished.None?
    ensures Equals(d, Some(d)) == Failure(NullPointerException)
  {
  }

  /** A DTO with a null body, as the lite listing produces, cannot be compared either. */
  lemma EqualsThrowsOnNullBody(d: ArticleDto, obj: ArticleDto)
    requires d.body.None? && d.title == obj.title
    ensures Equals(d, Some(obj)) == Failure(NullPointerException)
  {
  }

  /** A DTO without an image URL, as the scraper sends when a page has no image, cannot be compared even with itself. */
  lemma EqualsThrowsOnNullImage(d: ArticleDto)
    requires d.body.Some? && d.timePublished.Some? && d.imageUrl.None?
    ensures Equals(d, Some(d)) == Failure(NullPointerException)
  {
  }

  /**
   * The evident intent of `equals`: null-safe comparison of every field but the id
   * (`Objects.equals` on the nullable body, publication instant and image URL).
   */
  function EqualsNullSafe(self: ArticleDto, obj: Option<ArticleDto>): (r: bool)
    ensures obj.None? ==> !r
    ensures Comparable(self) && obj.Some? && Comparable(obj.value) ==> Equals(self, obj) == Success(r)
  {
    match obj
    case None => false
    case Some(other) =>
      && self.title == other.title
      && self.body == other.body
      && self.timePublished == other.timePublished
      && self.timeFetched == other.timeFetched
      && self.source == other.source
      && self.articleUrl == other.articleUrl
      && self.imageUrl == other.imageUrl
      && self.category == other.category
  }

  /** The null-safe comparison is an equivalence relation that ignores the id, on all DTOs. */
  lemma EqualsNullSafeEquivalence(d: ArticleDto, e: ArticleDto, f: ArticleDto)
    ensures EqualsNullSafe(d, Some(d))
    ensures EqualsNullSafe(d, Some(e)) == EqualsNullSafe(e, Some(d))
    ensures EqualsNullSafe(d, Some(e)) && EqualsNullSafe(e, Some(f)) ==> EqualsNullSafe(d, Some(f))
    ensures EqualsNullSafe(d, Some(e)) <==> SameContent(d, e)
  {
  }
}
