/**
 * The scraper's `Article` (scraper/src/Article.py): the fields captured at construction, with
 * the construction instant as the fetch time, and `to_dict`, which builds the payload the
 * backend's write endpoint expects once and then hands back the cached dictionary.
 */
module Scraper {
  import opened Wrappers
  import opened Categories

  /** The values the payload dictionary holds: strings and `None`. */
  datatype Json = JString(s: string) | JNull

  /** A time-zone-aware `datetime`, represented by the text `isoformat()` gives for it. */
  datatype DateTime = DateTime(iso: string)

  /**
   * `Category.value` in scraper/src/Categories.py: each member's value is a string spelled
   * like the member.
   */
  function Value(c: Category): string
  {
    match c
    case UnitedStatesPolitics => "UNITED_STATES_POLITICS"
    case WorldPolitics => "WORLD_POLITICS"
    case Science => "SCIENCE"
    case Technology => "TECHNOLOGY"
    case Sports => "SPORTS"
    case Entertainment => "ENTERTAINMENT"
    case Business => "BUSINESS"
    case Health => "HEALTH"
    case Education => "EDUCATION"
    case Environment => "ENVIRONMENT"
    case Travel => "TRAVEL"
    case Food => "FOOD"
    case Lifestyle => "LIFESTYLE"
    case Opinion => "OPINION"
    case Other => "OTHER"
  }

  /** The value the scraper sends for a category is the backend constant's name, so the backend reads it back as the same constant. */
  lemma ValueIsName(c: Category)
    ensures Value(c) == Name(c)
    ensures forall d :: Name(d) == Value(c) ==> d == c
  {
    forall d | Name(d) == Value(c) ensures d == c {
      NameInjective(c, d);
    }
  }

  /** The eight keys of the payload, the names of the backend DTO's fields except the id. */
  const PayloadKeys: set<string> :=
    {"articleUrl", "imageUrl", "title", "body", "source", "timePublished", "timeFetched", "category"}

  class Article {
    var url: string
    var title: string
    var imageUrl: Option<string>
    var body: string
    var source: string
    var category: Category
    var date: Option<DateTime>
    var fetchedDate: DateTime
    var dict: Option<map<string, Json>>

    /** `__init__`: stores the arguments; `now` is the value of `datetime.now().astimezone()`. */
    constructor (url: string, title: string, imageUrl: Option<string>, body: string, source: string,
                 category: Category, date: Option<DateTime>, now: DateTime)
      ensures this.url == url && this.title == title && this.imageUrl == imageUrl
      ensures this.body == body && this.source == source && this.category == category
      ensures this.date == date && fetchedDate == now
      ensures dict == None
    {
      this.url := url;
      this.title := title;
      this.imageUrl := imageUrl;
      this.body := body;
      this.source := source;
      this.category := category;
      this.date := date;
      fetchedDate := now;
      dict := None;
    }

    /** The dictionary literal of `to_dict`, over the current fields. */
    function Payload(): (d: map<string, Json>)
      reads this
      ensures d.Keys == PayloadKeys
      ensures "id" !in d
      ensures d["articleUrl"] == JString(url) && d["imageUrl"] == if imageUrl.None? then JNull else JString(imageUrl.value)
      ensures d["title"] == JString(title) && d["body"] == JString(body) && d["source"] == JString(source)
      ensures d["timePublished"] == if date.None? then JNull else JString(date.value.iso)
      ensures d["timeFetched"] == JString(fetchedDate.iso)
      ensures d["category"] == JString(Name(category))
    {
      ValueIsName(category);
      map[
        "articleUrl" := JString(url),
        "imageUrl" := (if imageUrl.Some? then JString(imageUrl.value) else JNull),
        "title" := JString(title),
        "body" := JString(body),
        "source" := JString(source),
        "timePublished" := (if date.Some? then JString(date.value.iso) else JNull),
        "timeFetched" := JString(fetchedDate.iso),
        "category" := JString(Value(category))
      ]
    }

    /**
     * `to_dict`: the first call builds the payload from the fields and caches it; later calls
     * return the cached dictionary, whatever the fields hold by then.
     */
    method ToDict() returns (d: map<string, Json>)
      modifies this`dict
      ensures old(dict).None? ==> d == old(Payload()) && dict == Some(d)
      ensures old(dict).Some? ==> d == old(dict).value && dict == old(dict)
    {
      if dict.None? {
        dict := Some(Payload());
      }
      d := dict.value;
    }
  }
}
