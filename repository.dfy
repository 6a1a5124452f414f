/**
 * The store behind `ArticleRepository` (a Spring Data JPA repository over the `articles` table):
 * rows in enumeration order, a generated-id counter, and the unique-title column constraint.
 */
module Repository {
  import opened Wrappers
  import opened Entity

  /** The rows, in the order `findAll` enumerates them, and the next id the generator hands out. */
  datatype Store = Store(rows: seq<Article>, nextId: int)

  /** Generated ids are positive, below the counter and distinct; titles are unique. */
  predicate WellFormed(s: Store)
  {
    && s.nextId >= 1
    && (forall k :: 0 <= k < |s.rows| ==> s.rows[k].id.Some? && 1 <= s.rows[k].id.value < s.nextId)
    && (forall j, k :: 0 <= j < k < |s.rows| ==> s.rows[j].id != s.rows[k].id)
    && (forall j, k :: 0 <= j < k < |s.rows| ==> s.rows[j].title != s.rows[k].title)
  }

  /** The index of the first row with the given id, or -1. */
  function IndexOfId(rows: seq<Article>, id: int): (k: int)
    ensures -1 <= k < |rows|
    ensures k >= 0 ==> rows[k].id == Some(id) && forall j :: 0 <= j < k ==> rows[j].id != Some(id)
    ensures k < 0 <==> forall j :: 0 <= j < |rows| ==> rows[j].id != Some(id)
  {
    if |rows| == 0 then -1
    else if rows[0].id == Some(id) then 0
    else
      var k := IndexOfId(rows[1..], id);
      if k < 0 then -1 else k + 1
  }

  /** The index of the first row with the given title, or -1. */
  function IndexOfTitle(rows: seq<Article>, title: string): (k: int)
    ensures -1 <= k < |rows|
    ensures k >= 0 ==> rows[k].title == title && forall j :: 0 <= j < k ==> rows[j].title != title
    ensures k < 0 <==> forall j :: 0 <= j < |rows| ==> rows[j].title != title
  {
    if |rows| == 0 then -1
    else if rows[0].title == title then 0
    else
      var k := IndexOfTitle(rows[1..], title);
      if k < 0 then -1 else k + 1
  }

  /** The database refuses a second row with a title that is already stored. */
  datatype StoreError = DuplicateTitle

  datatype Saved = Saved(store: Store, article: Article)

  /** Some other row, one whose id differs from the article's, already holds its title. */
  predicate TitleTaken(rows: seq<Article>, a: Article)
  {
    exists j | 0 <= j < |rows| :: rows[j].title == a.title && rows[j].id != a.id
  }

  /**
   * `save`: an article whose id a row has replaces that row in place; one with no id, or an id
   * no row has, is inserted at the end under a freshly generated id. A title some other row
   * already holds is refused. The saved article, with its id, is returned.
   */
  function Persist(s: Store, a: Article): (r: Result<Saved, StoreError>)
    ensures r.Failure? <==> TitleTaken(s.rows, a)
    ensures r.Success? ==> r.value.article == a.(id := r.value.article.id) && r.value.article.id.Some?
    ensures r.Success? ==> r.value.article in r.value.store.rows
    ensures r.Success? && WellFormed(s) ==> WellFormed(r.value.store)
    ensures r.Success? && a.id.Some? && IndexOfId(s.rows, a.id.value) >= 0 ==>
      r.value.store.nextId == s.nextId && r.value.article == a &&
      r.value.store.rows == s.rows[IndexOfId(s.rows, a.id.value) := a]
    ensures r.Success? && (a.id.None? || IndexOfId(s.rows, a.id.value) < 0) ==>
      r.value.store.nextId == s.nextId + 1 && r.value.article.id == Some(s.nextId) &&
      r.value.store.rows == s.rows + [r.value.article]
  {
    if TitleTaken(s.rows, a) then Failure(DuplicateTitle)
    else if a.id.Some? && IndexOfId(s.rows, a.id.value) >= 0 then
      var k := IndexOfId(s.rows, a.id.value);
      ReplaceKeepsWellFormed(s, k, a);
      assert s.rows[k := a][k] == a;
      Success(Saved(Store(s.rows[k := a], s.nextId), a))
    else
      var b := a.(id := Some(s.nextId));
      AppendKeepsWellFormed(s, a);
      assert (s.rows + [b])[|s.rows|] == b;
      Success(Saved(Store(s.rows + [b], s.nextId + 1), b))
  }

  /** Replacing the row with the article's id keeps the store well formed when no other row has its title. */
  lemma ReplaceKeepsWellFormed(s: Store, k: int, a: Article)
    requires 0 <= k < |s.rows| && s.rows[k].id == a.id
    requires !TitleTaken(s.rows, a)
    ensures WellFormed(s) ==> WellFormed(Store(s.rows[k := a], s.nextId))
  {
    var rows := s.rows[k := a];
    if WellFormed(s) {
      forall j, i | 0 <= j < i < |rows| ensures rows[j].title != rows[i].title {
        if j == k {
          assert s.rows[i].id != a.id;
        } else if i == k {
          assert s.rows[j].id != a.id;
        }
      }
    }
  }

  /** Appending the article under the next id keeps the store well formed when no row has its title. */
  lemma AppendKeepsWellFormed(s: Store, a: Article)
    requires a.id.None? || IndexOfId(s.rows, a.id.value) < 0
    requires !TitleTaken(s.rows, a)
    ensures WellFormed(s) ==> WellFormed(Store(s.rows + [a.(id := Some(s.nextId))], s.nextId + 1))
  {
    var b := a.(id := Some(s.nextId));
    var rows := s.rows + [b];
    if WellFormed(s) {
      forall j | 0 <= j < |s.rows| ensures rows[j].title != b.title {
        assert s.rows[j].id != a.id by {
          if a.id.Some? {
            assert s.rows[j].id != Some(a.id.value);
          }
        }
      }
    }
  }

  /** The repository object: its rows, the id generator and a count of saves performed. */
  class ArticleRepository {
    var rows: seq<Article>
    var nextId: int
    ghost var saves: nat

    function State(): Store
      reads this
    {
      Store(rows, nextId)
    }

    ghost predicate Valid()
      reads this
    {
      WellFormed(State())
    }

    /** An empty table. */
    constructor ()
      ensures Valid() && rows == [] && saves == 0
    {
      rows := [];
      nextId := 1;
      saves := 0;
    }

    /** `findById`: the row with that id, if any. */
    function FindById(id: int): (r: Option<Article>)
      reads this
      ensures r.Some? <==> exists k :: 0 <= k < |rows| && rows[k].id == Some(id)
      ensures r.Some? ==> r.value in rows && r.value.id == Some(id)
    {
      var k := IndexOfId(rows, id);
      if k < 0 then None else Some(rows[k])
    }

    /** `findByTitle`: the row with that title, or null. */
    function FindByTitle(title: string): (r: Option<Article>)
      reads this
      ensures r.Some? <==> exists k :: 0 <= k < |rows| && rows[k].title == title
      ensures r.Some? ==> r.value in rows && r.value.title == title
    {
      var k := IndexOfTitle(rows, title);
      if k < 0 then None else Some(rows[k])
    }

    /** `findAll`: every row, in enumeration order. */
    function FindAll(): (all: seq<Article>)
      reads this
      ensures |all| == |rows|
      ensures forall k :: 0 <= k < |rows| ==> all[k] == rows[k]
    {
      rows
    }

    /** `save`, counted. */
    method Save(a: Article) returns (r: Result<Article, StoreError>)
      requires Valid()
      modifies this
      ensures Valid()
      ensures saves == old(saves) + 1
      ensures Persist(old(State()), a).Success? ==>
        State() == Persist(old(State()), a).value.store && r == Success(Persist(old(State()), a).value.article)
      ensures Persist(old(State()), a).Failure? ==> State() == old(State()) && r == Failure(DuplicateTitle)
    {
      var p := Persist(State(), a);
      saves := saves + 1;
      match p {
        case Success(saved) =>
          rows, nextId := saved.store.rows, saved.store.nextId;
          r := Success(saved.article);
        case Failure(e) =>
          r := Failure(e);
      }
    }
  }
}
