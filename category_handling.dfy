/**
 * The owner-scoped categories table (category_handling.go): listing, adding,
 * renaming and deleting categories. Every handler first identifies the
 * request through its cookie and sends an anonymous one to the login page.
 */
module CategoryHandling {
  import opened Wrappers
  import opened Text
  import opened Relational
  import opened Sorting
  import opened Storage
  import UserHandling

  /** The struct a listed row is scanned into (`SELECT id, name`). */
  datatype Category = Category(id: int, name: Bytes)

  /** The answer of GET /categories. */
  datatype CategoryPage = RedirectToLogin | Listing(categories: seq<Category>)

  function AsCategory(c: CategoryRow): Category { Category(c.id, c.name) }

  /**
   * `ORDER BY name DESC`: `a` may come before `b` when its name is not
   * smaller. Any two rows are ordered one way or the other, and both ways
   * only when their names are equal.
   */
  function ByNameDescending(a: CategoryRow, b: CategoryRow): (before: bool)
    ensures before || LexLe(a.name, b.name)
    ensures before && LexLe(a.name, b.name) ==> a.name == b.name
  {
    LexLeTotal(a.name, b.name);
    LexLeAntisymmetric(a.name, b.name);
    LexLe(b.name, a.name)
  }

  lemma ByNameDescendingTotalPreorder()
    ensures TotalPreorder(ByNameDescending)
  {
    forall a: CategoryRow, b: CategoryRow
      ensures ByNameDescending(a, b) || ByNameDescending(b, a)
    {
      LexLeTotal(a.name, b.name);
    }
    forall a: CategoryRow, b: CategoryRow, c: CategoryRow | ByNameDescending(a, b) && ByNameDescending(b, c)
      ensures ByNameDescending(a, c)
    {
      LexLeTransitive(c.name, b.name, a.name);
    }
  }

  /** `WHERE user_id = $1` on categories. */
  function CategoriesOf(categories: seq<CategoryRow>, userId: int): (r: seq<CategoryRow>)
    ensures forall c :: c in r <==> c in categories && c.userId == userId
  {
    Where(categories, (c: CategoryRow) => c.userId == userId)
  }

  /**
   * What scanning the query's rows gives: one entry per category of the
   * user and no other, ordered by name descending.
   */
  lemma ScannedCategories(table: seq<CategoryRow>, userId: int, rows: seq<CategoryRow>,
                          categories: seq<Category>)
    requires rows == SortBy(CategoriesOf(table, userId), ByNameDescending)
    requires |categories| == |rows|
    requires forall k :: 0 <= k < |rows| ==> categories[k] == AsCategory(rows[k])
    ensures |categories| == |CategoriesOf(table, userId)|
    ensures forall i, j :: 0 <= i < j < |categories| ==> LexLe(categories[j].name, categories[i].name)
    ensures forall c :: c in categories <==>
      exists r :: r in table && r.userId == userId && c == Category(r.id, r.name)
  {
    var owned := CategoriesOf(table, userId);
    ByNameDescendingTotalPreorder();
    SortBySorted(owned, ByNameDescending);
    assert |rows| == |multiset(rows)| == |multiset(owned)| == |owned|;
    forall i, j | 0 <= i < j < |categories|
      ensures LexLe(categories[j].name, categories[i].name)
    {
      assert ByNameDescending(rows[i], rows[j]);
    }
    forall c ensures c in categories <==>
      exists r :: r in table && r.userId == userId && c == Category(r.id, r.name)
    {
      if c in categories {
        var k :| 0 <= k < |categories| && categories[k] == c;
        assert rows[k] in multiset(rows);
        assert rows[k] in owned;
      }
      if exists r :: r in table && r.userId == userId && c == Category(r.id, r.name) {
        var r :| r in table && r.userId == userId && c == Category(r.id, r.name);
        assert r in owned;
        assert r in multiset(rows);
        var k :| 0 <= k < |rows| && rows[k] == r;
        assert categories[k] == c;
      }
    }
  }

  /**
   * getAllCategoriesOfUser: the query's rows scanned one by one. The list
   * holds one entry per category of the user, no other, ordered by name
   * descending.
   */
  method AllCategoriesOfUser(db: Database, userId: int) returns (categories: seq<Category>)
    ensures |categories| == |CategoriesOf(db.categories, userId)|
    ensures forall i, j :: 0 <= i < j < |categories| ==> LexLe(categories[j].name, categories[i].name)
    ensures forall c :: c in categories <==>
      exists r :: r in db.categories && r.userId == userId && c == Category(r.id, r.name)
  {
    var rows := SortBy(CategoriesOf(db.categories, userId), ByNameDescending);
    categories := [];
    var i := 0;
    while i < |rows|
      invariant 0 <= i <= |rows|
      invariant |categories| == i
      invariant forall k :: 0 <= k < i ==> categories[k] == AsCategory(rows[k])
    {
      categories := categories + [AsCategory(rows[i])];
      i := i + 1;
    }
    ScannedCategories(db.categories, userId, rows, categories);
  }

  /** GET /categories: the caller's list, or the login page for an anonymous request. */
  method ShowCategories(db: Database, cookie: Option<Bytes>) returns (page: CategoryPage)
    requires db.Valid()
    ensures var userId := UserHandling.Identity(db.sessions, cookie);
      && (userId == 0 <==> page == RedirectToLogin)
      && (page.Listing? ==>
            && |page.categories| == |CategoriesOf(db.categories, userId)|
            && (forall i, j :: 0 <= i < j < |page.categories| ==>
                  LexLe(page.categories[j].name, page.categories[i].name))
            && (forall c :: c in page.categories <==>
                  exists r :: r in db.categories && r.userId == userId && c == Category(r.id, r.name)))
  {
    var userId := UserHandling.GetUserID(db, cookie);
    if userId == 0 {
      page := RedirectToLogin;
    } else {
      var categories := AllCategoriesOfUser(db, userId);
      page := Listing(categories);
    }
  }

  /**
   * POST /categories: insert exactly one row with the given name, owned by
   * the caller, under a fresh id.
   */
  method AddCategory(db: Database, cookie: Option<Bytes>, name: Bytes) returns (location: string)
    requires db.Valid()
    modifies db
    ensures db.Valid()
    ensures db.users == old(db.users) && db.sessions == old(db.sessions)
    ensures db.lastUserId == old(db.lastUserId)
    ensures UserHandling.Identity(old(db.sessions), cookie) == 0 ==>
      && location == "/login"
      && db.categories == old(db.categories) && db.lastCategoryId == old(db.lastCategoryId)
    ensures UserHandling.Identity(old(db.sessions), cookie) != 0 ==>
      && location == "/categories"
      && db.lastCategoryId == old(db.lastCategoryId) + 1
      && db.categories == old(db.categories) +
           [CategoryRow(db.lastCategoryId, name, UserHandling.Identity(old(db.sessions), cookie))]
  {
    var userId := UserHandling.GetUserID(db, cookie);
    if userId == 0 {
      location := "/login";
      return;
    }
    var id := db.lastCategoryId + 1;
    var row := CategoryRow(id, name, userId);
    var categories := db.categories + [row];
    forall i, j | 0 <= i < j < |categories|
      ensures CategoryIdOf(categories[i]) != CategoryIdOf(categories[j])
    {
      if j == |db.categories| {
        assert categories[i] == db.categories[i];
        assert db.categories[i].id <= db.lastCategoryId;
      } else {
        assert CategoryIdOf(db.categories[i]) != CategoryIdOf(db.categories[j]);
      }
    }
    db.categories := categories;
    db.lastCategoryId := id;
    location := "/categories";
  }

  /**
   * `UPDATE categories SET name = $1 WHERE id = $2 AND user_id = $3`: only
   * the name of the caller's row with that id changes; ids, owners and all
   * other rows stay.
   */
  function CategoriesAfterRename(categories: seq<CategoryRow>, caller: int, id: int, name: Bytes)
    : (r: seq<CategoryRow>)
    ensures |r| == |categories|
    ensures forall i :: 0 <= i < |r| ==> r[i].id == categories[i].id && r[i].userId == categories[i].userId
    ensures forall i :: 0 <= i < |r| && categories[i].id == id && categories[i].userId == caller ==>
      r[i].name == name
    ensures forall i :: 0 <= i < |r| && !(categories[i].id == id && categories[i].userId == caller) ==>
      r[i] == categories[i]
  {
    seq(|categories|, i requires 0 <= i < |categories| =>
      var c := categories[i];
      if c.id == id && c.userId == caller then c.(name := name) else c)
  }

  /** Renaming leaves every row owned by someone else as it was. */
  lemma RenameSparesOthers(categories: seq<CategoryRow>, caller: int, id: int, name: Bytes)
    ensures var r := CategoriesAfterRename(categories, caller, id, name);
      forall c :: c in categories && c.userId != caller ==> c in r
  {
    var r := CategoriesAfterRename(categories, caller, id, name);
    forall c | c in categories && c.userId != caller ensures c in r {
      var i :| 0 <= i < |categories| && categories[i] == c;
      assert r[i] == c;
    }
  }

  /** POST category edit: rename the caller's category; an anonymous request goes to login. */
  method EditCategory(db: Database, cookie: Option<Bytes>, categoryId: int, name: Bytes)
    returns (location: string)
    requires db.Valid()
    modifies db
    ensures db.Valid()
    ensures db.users == old(db.users) && db.sessions == old(db.sessions)
    ensures db.lastUserId == old(db.lastUserId) && db.lastCategoryId == old(db.lastCategoryId)
    ensures UserHandling.Identity(old(db.sessions), cookie) == 0 ==>
      location == "/login" && db.categories == old(db.categories)
    ensures UserHandling.Identity(old(db.sessions), cookie) != 0 ==>
      && location == "/categories"
      && db.categories == CategoriesAfterRename(old(db.categories),
                                                UserHandling.Identity(old(db.sessions), cookie), categoryId, name)
  {
    var userId := UserHandling.GetUserID(db, cookie);
    if userId == 0 {
      location := "/login";
      return;
    }
    var categories := CategoriesAfterRename(db.categories, userId, categoryId, name);
    forall c | c in categories ensures 0 < c.id <= db.lastCategoryId {
      var i :| 0 <= i < |categories| && categories[i] == c;
      assert db.categories[i] in db.categories;
    }
    assert KeysDistinct(categories, CategoryIdOf) by {
      forall i, j | 0 <= i < j < |categories|
        ensures CategoryIdOf(categories[i]) != CategoryIdOf(categories[j])
      {
        assert CategoryIdOf(db.categories[i]) != CategoryIdOf(db.categories[j]);
      }
    }
    db.categories := categories;
    location := "/categories";
  }

  /**
   * The categories table after deleteCategory: the owner looked up by id
   * (0 when missing) must be the caller, and then the caller's rows with
   * that id go.
   */
  function CategoriesAfterDelete(categories: seq<CategoryRow>, caller: int, id: int): (r: seq<CategoryRow>)
    ensures forall c :: c in r ==> c in categories
    ensures forall c :: c in categories && c !in r ==> c.id == id && c.userId == caller
    ensures CategoryOwner(categories, id) != caller ==> r == categories
    ensures !KeyTaken(categories, CategoryIdOf, id) ==> r == categories
    ensures KeysDistinct(categories, CategoryIdOf) ==> KeysDistinct(r, CategoryIdOf)
  {
    var keep := (c: CategoryRow) => !(c.id == id && c.userId == caller);
    if CategoryOwner(categories, id) == caller then
      assert KeysDistinct(categories, CategoryIdOf) ==> KeysDistinct(Where(categories, keep), CategoryIdOf) by {
        if KeysDistinct(categories, CategoryIdOf) {
          WhereKeepsKeysDistinct(categories, keep, CategoryIdOf);
        }
      }
      Where(categories, keep)
    else categories
  }

  /**
   * Its owner deletes a category for good: no row has its id afterwards,
   * and every row with another id stays.
   */
  lemma DeleteOwnCategory(categories: seq<CategoryRow>, c: CategoryRow)
    requires KeysDistinct(categories, CategoryIdOf)
    requires c in categories
    ensures var r := CategoriesAfterDelete(categories, c.userId, c.id);
      && !KeyTaken(r, CategoryIdOf, c.id)
      && forall d :: d in categories && d.id != c.id ==> d in r
  {
    FindByKeyUnique(categories, CategoryIdOf, c);
    var r := CategoriesAfterDelete(categories, c.userId, c.id);
    forall d | d in r ensures d.id != c.id {
      if d.id == c.id {
        FindByKeyUnique(categories, CategoryIdOf, d);
      }
    }
  }

  /** POST /delete_category: delete only the caller's own category, then back to the list. */
  method DeleteCategory(db: Database, cookie: Option<Bytes>, categoryId: int) returns (location: string)
    requires db.Valid()
    modifies db
    ensures db.Valid()
    ensures db.users == old(db.users) && db.sessions == old(db.sessions)
    ensures db.lastUserId == old(db.lastUserId) && db.lastCategoryId == old(db.lastCategoryId)
    ensures UserHandling.Identity(old(db.sessions), cookie) == 0 ==>
      location == "/login" && db.categories == old(db.categories)
    ensures UserHandling.Identity(old(db.sessions), cookie) != 0 ==>
      && location == "/categories"
      && db.categories == CategoriesAfterDelete(old(db.categories),
                                                UserHandling.Identity(old(db.sessions), cookie), categoryId)
  {
    var userId := UserHandling.GetUserID(db, cookie);
    if userId == 0 {
      location := "/login";
      return;
    }
    db.categories := CategoriesAfterDelete(db.categories, userId, categoryId);
    location := "/categories";
  }
}
