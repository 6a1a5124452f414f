/**
 * Human-readable category labels (backend service/CategoryService.java): a category token such as
 * UNITED_STATES_POLITICS is lower-cased, split on '_', each word gets an upper-case first letter,
 * and the words are joined by single spaces.
 */
module CategoryService {
  import opened Wrappers
  import opened Strings
  import opened Categories

  /** `substring(0, 1)` on an empty word. */
  datatype Exception = StringIndexOutOfBounds

  /** The words `formatCategory` iterates over: `category.toLowerCase().split("_")`. */
  function Words(category: string): seq<string>
  {
    JavaSplit(ToLower(category), '_')
  }

  /** `formatCategory` returns normally exactly when no word is empty. */
  predicate Formattable(category: string)
  {
    forall k :: 0 <= k < |Words(category)| ==> |Words(category)[k]| > 0
  }

  /** `word.substring(0, 1).toUpperCase() + word.substring(1)`. */
  function Capitalize(word: string): string
    requires |word| > 0
  {
    [UpperChar(word[0])] + word[1..]
  }

  /** What the StringBuilder holds after the given words: each capitalised word followed by a space. */
  function Spaced(words: seq<string>): string
    requires forall k :: 0 <= k < |words| ==> |words[k]| > 0
  {
    if |words| == 0 then ""
    else Spaced(words[..|words| - 1]) + Capitalize(words[|words| - 1]) + " "
  }

  /** The label of a formattable category token. */
  function Label(category: string): string
    requires Formattable(category)
  {
    Trim(Spaced(Words(category)))
  }

  /** The capitalised words, without separators. */
  function CapitalizedWords(words: seq<string>): (caps: seq<string>)
    requires forall k :: 0 <= k < |words| ==> |words[k]| > 0
    ensures |caps| == |words|
    ensures forall k :: 0 <= k < |words| ==> caps[k] == Capitalize(words[k])
  {
    if |words| == 0 then [] else CapitalizedWords(words[..|words| - 1]) + [Capitalize(words[|words| - 1])]
  }

  /**
   * `formatCategory`: the StringBuilder loop. An empty word makes `substring(0, 1)` throw;
   * otherwise the result is the trimmed builder content.
   */
  method FormatCategory(category: string) returns (r: Result<string, Exception>)
    ensures r.Failure? <==> !Formattable(category)
    ensures r.Success? ==> r.value == Label(category)
  {
    var words := Words(category);
    var formatted := "";
    for i := 0 to |words|
      invariant forall k :: 0 <= k < i ==> |words[k]| > 0
      invariant formatted == Spaced(words[..i])
    {
      var word := words[i];
      if |word| == 0 {
        return Failure(StringIndexOutOfBounds);
      }
      assert words[..i + 1][..i] == words[..i];
      formatted := formatted + [UpperChar(word[0])] + word[1..] + " ";
    }
    assert words[..|words|] == words;
    return Success(Trim(formatted));
  }

  /** No character of a label is an underscore, and a label never starts or ends with white space. */
  lemma LabelShape(category: string)
    requires Formattable(category)
    ensures '_' !in Label(category)
    ensures |Label(category)| > 0 ==> Label(category)[0] > ' ' && Label(category)[|Label(category)| - 1] > ' '
  {
    var words := Words(category);
    JavaSplitPieces(ToLower(category), '_');
    SpacedAvoids(words, '_');
  }

  /** The builder content contains a character only if some word holds it or it is the space. */
  lemma {:induction false} SpacedAvoids(words: seq<string>, ch: char)
    requires forall k :: 0 <= k < |words| ==> |words[k]| > 0
    requires forall k :: 0 <= k < |words| ==> ch !in words[k]
    requires ch != ' ' && !('A' <= ch <= 'Z')
    ensures ch !in Spaced(words)
  {
    if |words| > 0 {
      var prefix := words[..|words| - 1];
      SpacedAvoids(prefix, ch);
      var w := words[|words| - 1];
      assert ch != UpperChar(w[0]) by {
        assert w[0] != ch;
      }
      assert forall c :: c in w[1..] ==> c in w;
    }
  }

  /** A token shape: a non-empty run of segments, none empty, and no white space or control character. */
  predicate TokenShaped(category: string)
  {
    && Formattable(category)
    && |Words(category)| > 0
    && forall i :: 0 <= i < |category| ==> category[i] > ' '
  }

  /**
   * For a token-shaped name the label is exactly the capitalised words joined by single spaces,
   * so splitting the label at spaces gives back one word per `_`-separated segment.
   */
  lemma LabelWords(category: string)
    requires TokenShaped(category)
    ensures Label(category) == Join(CapitalizedWords(Words(category)), " ")
    ensures Split(Label(category), " ") == CapitalizedWords(Words(category))
    ensures |Split(Label(category), " ")| == |Words(category)|
  {
    var lower := ToLower(category);
    var words := Words(category);
    var caps := CapitalizedWords(words);
    JavaSplitPieces(lower, '_');
    assert forall ch :: ch in lower ==> ch > ' ';
    forall k | 0 <= k < |caps|
      ensures |caps[k]| > 0 && ' ' !in caps[k] && caps[k][0] > ' ' && caps[k][|caps[k]| - 1] > ' '
    {
      assert forall ch :: ch in words[k] ==> ch in lower;
      assert words[k][0] in words[k];
      assert words[k][|words[k]| - 1] in words[k];
      assert forall ch :: ch in words[k][1..] ==> ch in words[k];
    }
    var joined := Join(caps, " ");
    SpacedJoin(words);
    JoinEnds(caps, " ");
    TrimPadded(joined);
    SplitJoin(caps, ' ');
  }

  /** The builder content is the join followed by one space. */
  lemma {:induction false} SpacedJoin(words: seq<string>)
    requires forall k :: 0 <= k < |words| ==> |words[k]| > 0
    requires |words| > 0
    ensures Spaced(words) == Join(CapitalizedWords(words), " ") + " "
  {
    var prefix := words[..|words| - 1];
    if |prefix| > 0 {
      SpacedJoin(prefix);
      JoinSnoc(CapitalizedWords(prefix), Capitalize(words[|words| - 1]), " ");
    } else {
      assert CapitalizedWords(words) == [Capitalize(words[0])];
    }
  }

  /** A join of non-empty pieces starts with the first piece's first character and ends with the last piece's last. */
  lemma {:induction false} JoinEnds(parts: seq<string>, sep: string)
    requires |parts| > 0
    requires forall k :: 0 <= k < |parts| ==> |parts[k]| > 0
    ensures |Join(parts, sep)| > 0
    ensures Join(parts, sep)[0] == parts[0][0]
    ensures Join(parts, sep)[|Join(parts, sep)| - 1] == parts[|parts| - 1][|parts[|parts| - 1]| - 1]
  {
    if |parts| > 1 {
      JoinEnds(parts[1..], sep);
    }
  }

  /** The lower-case `_`-separated segments of each constant's name. */
  function Segments(c: Category): seq<string>
  {
    match c
    case UnitedStatesPolitics => ["united", "states", "politics"]
    case WorldPolitics => ["world", "politics"]
    case Science => ["science"]
    case Technology => ["technology"]
    case Sports => ["sports"]
    case Entertainment => ["entertainment"]
    case Business => ["business"]
    case Health => ["health"]
    case Education => ["education"]
    case Environment => ["environment"]
    case Travel => ["travel"]
    case Food => ["food"]
    case Lifestyle => ["lifestyle"]
    case Opinion => ["opinion"]
    case Other => ["other"]
  }

  /** Every character of a join comes from one of the pieces or from the separator. */
  lemma {:induction false} JoinChars(parts: seq<string>, sep: string, ch: char)
    requires ch in Join(parts, sep)
    ensures ch in sep || exists k :: 0 <= k < |parts| && ch in parts[k]
  {
    if |parts| > 1 {
      var tail := Join(parts[1..], sep);
      assert Join(parts, sep) == parts[0] + sep + tail;
      if ch !in parts[0] && ch !in sep {
        JoinChars(parts[1..], sep, ch);
        var k :| 0 <= k < |parts[1..]| && ch in parts[1..][k];
        assert ch in parts[k + 1];
      }
    } else if |parts| == 1 {
      assert ch in parts[0];
    }
  }

  /** Lower-case ASCII letters only. */
  predicate LowerWord(w: string)
  {
    |w| > 0 && forall i :: 0 <= i < |w| ==> 'a' <= w[i] <= 'z'
  }

  /** A name whose lower-cased form joins lower-case words with `_` has no white space or control character. */
  lemma TokenChars(category: string, segments: seq<string>)
    requires forall k :: 0 <= k < |segments| ==> LowerWord(segments[k])
    requires ToLower(category) == Join(segments, "_")
    ensures forall i :: 0 <= i < |category| ==> category[i] > ' '
  {
    var lower := ToLower(category);
    forall i | 0 <= i < |category| ensures category[i] > ' ' {
      assert lower[i] == LowerChar(category[i]);
      assert lower[i] in lower;
      JoinChars(segments, "_", lower[i]);
      if lower[i] != '_' {
        var k :| 0 <= k < |segments| && lower[i] in segments[k];
        var j :| 0 <= j < |segments[k]| && segments[k][j] == lower[i];
      }
    }
  }

  /**
   * A name whose lower-cased form joins non-empty lower-case words with `_` is formattable,
   * has those words, and is labelled by the capitalised words joined with single spaces.
   */
  lemma TokenLabel(category: string, segments: seq<string>)
    requires |segments| > 0
    requires forall k :: 0 <= k < |segments| ==> LowerWord(segments[k])
    requires ToLower(category) == Join(segments, "_")
    ensures Formattable(category) && Words(category) == segments
    ensures Label(category) == Join(CapitalizedWords(segments), " ")
  {
    var lower := ToLower(category);
    forall k | 0 <= k < |segments| ensures '_' !in segments[k] {
      assert forall i :: 0 <= i < |segments[k]| ==> segments[k][i] != '_';
    }
    WordsOfJoin(category, segments);
    TokenChars(category, segments);
    LabelWords(category);
  }

  /** A name whose lower-cased form joins non-empty, underscore-free segments with `_` has those segments as its words. */
  lemma {:induction false} WordsOfJoin(category: string, segments: seq<string>)
    requires |segments| > 0
    requires forall k :: 0 <= k < |segments| ==> |segments[k]| > 0 && '_' !in segments[k]
    requires ToLower(category) == Join(segments, "_")
    ensures Words(category) == segments
    ensures Formattable(category)
  {
    var lower := ToLower(category);
    SplitJoin(segments, '_');
    if |segments| == 1 {
      assert '_' !in lower;
    } else {
      assert lower == segments[0] + "_" + Join(segments[1..], "_");
      assert lower[|segments[0]|] == '_';
    }
  }

  /** The labels the category endpoint is expected to serve, one per constant. */
  function ExpectedLabel(c: Category): string
  {
    match c
    case UnitedStatesPolitics => "United States Politics"
    case WorldPolitics => "World Politics"
    case Science => "Science"
    case Technology => "Technology"
    case Sports => "Sports"
    case Entertainment => "Entertainment"
    case Business => "Business"
    case Health => "Health"
    case Education => "Education"
    case Environment => "Environment"
    case Travel => "Travel"
    case Food => "Food"
    case Lifestyle => "Lifestyle"
    case Opinion => "Opinion"
    case Other => "Other"
  }

  // Each constant in turn: its lower-cased name joins its segments with `_`, its expected label
  // joins their capitalised forms with spaces, and so `formatCategory` yields that label.

  // The two halves of the longest name are proved separately to keep each proof small.

  lemma LowerUnitedStatesPolitics()
    ensures ToLower(Name(UnitedStatesPolitics)) == Join(Segments(UnitedStatesPolitics), "_")
  {
  }

  lemma CapitalizedUnitedStatesPolitics()
    ensures ExpectedLabel(UnitedStatesPolitics) == Join(CapitalizedWords(Segments(UnitedStatesPolitics)), " ")
  {
  }

  lemma SpellingUnitedStatesPolitics()
    ensures ToLower(Name(UnitedStatesPolitics)) == Join(Segments(UnitedStatesPolitics), "_")
    ensures ExpectedLabel(UnitedStatesPolitics) == Join(CapitalizedWords(Segments(UnitedStatesPolitics)), " ")
  {
    LowerUnitedStatesPolitics();
    CapitalizedUnitedStatesPolitics();
  }

  lemma LabelUnitedStatesPolitics(name: string)
    requires name == Name(UnitedStatesPolitics)
    ensures Formattable(name) && Words(name) == Segments(UnitedStatesPolitics)
    ensures Label(name) == ExpectedLabel(UnitedStatesPolitics)
  {
    SpellingUnitedStatesPolitics();
    TokenLabel(name, Segments(UnitedStatesPolitics));
  }

  lemma SpellingWorldPolitics()
    ensures ToLower(Name(WorldPolitics)) == Join(Segments(WorldPolitics), "_")
    ensures ExpectedLabel(WorldPolitics) == Join(CapitalizedWords(Segments(WorldPolitics)), " ")
  {
  }

  lemma LabelWorldPolitics(name: string)
    requires name == Name(WorldPolitics)
    ensures Formattable(name) && Words(name) == Segments(WorldPolitics)
    ensures Label(name) == ExpectedLabel(WorldPolitics)
  {
    SpellingWorldPolitics();
    TokenLabel(name, Segments(WorldPolitics));
  }

  lemma SpellingScience()
    ensures ToLower(Name(Science)) == Join(Segments(Science), "_")
    ensures ExpectedLabel(Science) == Join(CapitalizedWords(Segments(Science)), " ")
  {
  }

  lemma LabelScience(name: string)
    requires name == Name(Science)
    ensures Formattable(name) && Words(name) == Segments(Science)
    ensures Label(name) == ExpectedLabel(Science)
  {
    SpellingScience();
    TokenLabel(name, Segments(Science));
  }

  lemma SpellingTechnology()
    ensures ToLower(Name(Technology)) == Join(Segments(Technology), "_")
    ensures ExpectedLabel(Technology) == Join(CapitalizedWords(Segments(Technology)), " ")
  {
  }

  lemma LabelTechnology(name: string)
    requires name == Name(Technology)
    ensures Formattable(name) && Words(name) == Segments(Technology)
    ensures Label(name) == ExpectedLabel(Technology)
  {
    SpellingTechnology();
    TokenLabel(name, Segments(Technology));
  }

  lemma SpellingSports()
    ensures ToLower(Name(Sports)) == Join(Segments(Sports), "_")
    ensures ExpectedLabel(Sports) == Join(CapitalizedWords(Segments(Sports)), " ")
  {
  }

  lemma LabelSports(name: string)
    requires name == Name(Sports)
    ensures Formattable(name) && Words(name) == Segments(Sports)
    ensures Label(name) == ExpectedLabel(Sports)
  {
    SpellingSports();
    TokenLabel(name, Segments(Sports));
  }

  lemma SpellingEntertainment()
    ensures ToLower(Name(Entertainment)) == Join(Segments(Entertainment), "_")
    ensures ExpectedLabel(Entertainment) == Join(CapitalizedWords(Segments(Entertainment)), " ")
  {
  }

  lemma LabelEntertainment(name: string)
    requires name == Name(Entertainment)
    ensures Formattable(name) && Words(name) == Segments(Entertainment)
    ensures Label(name) == ExpectedLabel(Entertainment)
  {
    SpellingEntertainment();
    TokenLabel(name, Segments(Entertainment));
  }

  lemma SpellingBusiness()
    ensures ToLower(Name(Business)) == Join(Segments(Business), "_")
    ensures ExpectedLabel(Business) == Join(CapitalizedWords(Segments(Business)), " ")
  {
  }

  lemma LabelBusiness(name: string)
    requires name == Name(Business)
    ensures Formattable(name) && Words(name) == Segments(Business)
    ensures Label(name) == ExpectedLabel(Business)
  {
    SpellingBusiness();
    TokenLabel(name, Segments(Business));
  }

  lemma SpellingHealth()
    ensures ToLower(Name(Health)) == Join(Segments(Health), "_")
    ensures ExpectedLabel(Health) == Join(CapitalizedWords(Segments(Health)), " ")
  {
  }

  lemma LabelHealth(name: string)
    requires name == Name(Health)
    ensures Formattable(name) && Words(name) == Segments(Health)
    ensures Label(name) == ExpectedLabel(Health)
  {
    SpellingHealth();
    TokenLabel(name, Segments(Health));
  }

  lemma SpellingEducation()
    ensures ToLower(Name(Education)) == Join(Segments(Education), "_")
    ensures ExpectedLabel(Education) == Join(CapitalizedWords(Segments(Education)), " ")
  {
  }

  lemma LabelEducation(name: string)
    requires name == Name(Education)
    ensures Formattable(name) && Words(name) == Segments(Education)
    ensures Label(name) == ExpectedLabel(Education)
  {
    SpellingEducation();
    TokenLabel(name, Segments(Education));
  }

  lemma SpellingEnvironment()
    ensures ToLower(Name(Environment)) == Join(Segments(Environment), "_")
    ensures ExpectedLabel(Environment) == Join(CapitalizedWords(Segments(Environment)), " ")
  {
  }

  lemma LabelEnvironment(name: string)
    requires name == Name(Environment)
    ensures Formattable(name) && Words(name) == Segments(Environment)
    ensures Label(name) == ExpectedLabel(Environment)
  {
    SpellingEnvironment();
    TokenLabel(name, Segments(Environment));
  }

  lemma SpellingTravel()
    ensures ToLower(Name(Travel)) == Join(Segments(Travel), "_")
    ensures ExpectedLabel(Travel) == Join(CapitalizedWords(Segments(Travel)), " ")
  {
  }

  lemma LabelTravel(name: string)
    requires name == Name(Travel)
    ensures Formattable(name) && Words(name) == Segments(Travel)
    ensures Label(name) == ExpectedLabel(Travel)
  {
    SpellingTravel();
    TokenLabel(name, Segments(Travel));
  }

  lemma SpellingFood()
    ensures ToLower(Name(Food)) == Join(Segments(Food), "_")
    ensures ExpectedLabel(Food) == Join(CapitalizedWords(Segments(Food)), " ")
  {
  }

  lemma LabelFood(name: string)
    requires name == Name(Food)
    ensures Formattable(name) && Words(name) == Segments(Food)
    ensures Label(name) == ExpectedLabel(Food)
  {
    SpellingFood();
    TokenLabel(name, Segments(Food));
  }

  lemma SpellingLifestyle()
    ensures ToLower(Name(Lifestyle)) == Join(Segments(Lifestyle), "_")
    ensures ExpectedLabel(Lifestyle) == Join(CapitalizedWords(Segments(Lifestyle)), " ")
  {
  }

  lemma LabelLifestyle(name: string)
    requires name == Name(Lifestyle)
    ensures Formattable(name) && Words(name) == Segments(Lifestyle)
    ensures Label(name) == ExpectedLabel(Lifestyle)
  {
    SpellingLifestyle();
    TokenLabel(name, Segments(Lifestyle));
  }

  lemma SpellingOpinion()
    ensures ToLower(Name(Opinion)) == Join(Segments(Opinion), "_")
    ensures ExpectedLabel(Opinion) == Join(CapitalizedWords(Segments(Opinion)), " ")
  {
  }

  lemma LabelOpinion(name: string)
    requires name == Name(Opinion)
    ensures Formattable(name) && Words(name) == Segments(Opinion)
    ensures Label(name) == ExpectedLabel(Opinion)
  {
    SpellingOpinion();
    TokenLabel(name, Segments(Opinion));
  }

  lemma SpellingOther()
    ensures ToLower(Name(Other)) == Join(Segments(Other), "_")
    ensures ExpectedLabel(Other) == Join(CapitalizedWords(Segments(Other)), " ")
  {
  }

  lemma LabelOther(name: string)
    requires name == Name(Other)
    ensures Formattable(name) && Words(name) == Segments(Other)
    ensures Label(name) == ExpectedLabel(Other)
  {
    SpellingOther();
    TokenLabel(name, Segments(Other));
  }

  /** `formatCategory` succeeds on every enum constant's name and produces the expected label. */
  lemma TokensFormattable(c: Category)
    ensures Formattable(Name(c))
    ensures Words(Name(c)) == Segments(c)
    ensures Label(Name(c)) == ExpectedLabel(c)
  {
    match c {
      case UnitedStatesPolitics => LabelUnitedStatesPolitics(Name(c));
      case WorldPolitics => LabelWorldPolitics(Name(c));
      case Science => LabelScience(Name(c));
      case Technology => LabelTechnology(Name(c));
      case Sports => LabelSports(Name(c));
      case Entertainment => LabelEntertainment(Name(c));
      case Business => LabelBusiness(Name(c));
      case Health => LabelHealth(Name(c));
      case Education => LabelEducation(Name(c));
      case Environment => LabelEnvironment(Name(c));
      case Travel => LabelTravel(Name(c));
      case Food => LabelFood(Name(c));
      case Lifestyle => LabelLifestyle(Name(c));
      case Opinion => LabelOpinion(Name(c));
      case Other => LabelOther(Name(c));
    }
  }

  /** The label of one enum constant. */
  function CategoryLabel(c: Category): string
  {
    TokensFormattable(c);
    Label(Name(c))
  }

  /** `getCategories`: one label per constant, in declaration order. */
  function GetCategories(): (labels: seq<string>)
    ensures |labels| == |AllCategories| == 15
    ensures forall i :: 0 <= i < |AllCategories| ==> labels[i] == CategoryLabel(AllCategories[i])
  {
    seq(|AllCategories|, i requires 0 <= i < |AllCategories| => CategoryLabel(AllCategories[i]))
  }

  /** The expected labels in declaration order. */
  lemma ExpectedLabelList()
    ensures seq(15, i requires 0 <= i < 15 => ExpectedLabel(AllCategories[i])) == [
      "United States Politics", "World Politics", "Science", "Technology", "Sports",
      "Entertainment", "Business", "Health", "Education", "Environment", "Travel", "Food",
      "Lifestyle", "Opinion", "Other"]
  {
  }

  /** The fifteen labels the category endpoint serves, in declaration order. */
  lemma CategoryLabels()
    ensures GetCategories() == [
      "United States Politics", "World Politics", "Science", "Technology", "Sports",
      "Entertainment", "Business", "Health", "Education", "Environment", "Travel", "Food",
      "Lifestyle", "Opinion", "Other"]
  {
    forall i | 0 <= i < 15 ensures GetCategories()[i] == ExpectedLabel(AllCategories[i]) {
      TokensFormattable(AllCategories[i]);
    }
    ExpectedLabelList();
    assert GetCategories() == seq(15, i requires 0 <= i < 15 => ExpectedLabel(AllCategories[i]));
  }
}
