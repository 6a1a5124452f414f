/**
 * The fixed set of article categories (backend entity/Category.java), in declaration order.
 * The scraper mirrors the same fifteen tokens in scraper/src/Categories.py.
 */
module Categories {

  datatype Category =
    | UnitedStatesPolitics
    | WorldPolitics
    | Science
    | Technology
    | Sports
    | Entertainment
    | Business
    | Health
    | Education
    | Environment
    | Travel
    | Food
    | Lifestyle
    | Opinion
    | Other

  /** `Category.values()`: every constant once, in declaration order. */
  const AllCategories: seq<Category> := [
    UnitedStatesPolitics, WorldPolitics, Science, Technology, Sports, Entertainment, Business,
    Health, Education, Environment, Travel, Food, Lifestyle, Opinion, Other
  ]

  /** `Enum.name()`: the constant's identifier as declared in Category.java. */
  function Name(c: Category): string
  {
    match c
    case UnitedStatesPolitics => "UNITED_STATES_POLITICS"
    case WorldPolitics => "WORLD_POLITICS"
    case Science => "SCIENCE"
    case Technology => "TECHNOLOGY"
    case Sports => "SPORTS"
    case Entertainment => "ENTERTAINMENT"
    case Business => "BUSINESS"
    case Health => "HEALTH"
    case Education => "EDUCATION"
    case Environment => "ENVIRONMENT"
    case Travel => "TRAVEL"
    case Food => "FOOD"
    case Lifestyle => "LIFESTYLE"
    case Opinion => "OPINION"
    case Other => "OTHER"
  }

  /** `values()` lists each of the fifteen constants exactly once. */
  lemma AllCategoriesComplete(c: Category)
    ensures |AllCategories| == 15
    ensures c in AllCategories
    ensures forall i, j :: 0 <= i < j < |AllCategories| ==> AllCategories[i] != AllCategories[j]
  {
  }

  /** Distinct constants have distinct names, so a name identifies its constant. */
  lemma NameInjective(c: Category, d: Category)
    ensures Name(c) == Name(d) ==> c == d
  {
  }
}
