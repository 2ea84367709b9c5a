/** CategoriesService: per-owner CRUD on the category table. Names are stored
    lower-cased and are unique per owner; every lookup is scoped to the
    calling user, so another user's category is indistinguishable from a
    missing one (NotFound). */
module Categories {
  import opened Domain
  import opened Seqs
  import opened Store

  // ---- queries ----

  /** findOneCategory: the row `{ id, userId }`, projected to id/name/color. */
  function FindOneCategory(cs: seq<Category>, id: int, userId: int): (r: Result<CategoryView>)
    ensures r.Ok? <==> OwnsCategory(cs, id, userId)
    ensures r.Ok? ==> exists c :: c in cs && c.id == id && c.userId == userId && r.value == ViewOf(c)
    ensures r.Err? ==> r.error == NotFound
  {
    if cs == [] then Err(NotFound)
    else if cs[0].id == id && cs[0].userId == userId then Ok(ViewOf(cs[0]))
    else
      assert cs == [cs[0]] + cs[1..];
      FindOneCategory(cs[1..], id, userId)
  }

  /** The projection applied row by row. */
  function Views(cs: seq<Category>): (r: seq<CategoryView>)
    ensures |r| == |cs|
    ensures forall i :: 0 <= i < |cs| ==> r[i] == ViewOf(cs[i])
  {
    if cs == [] then [] else [ViewOf(cs[0])] + Views(cs[1..])
  }

  function OwnedCategories(cs: seq<Category>, userId: int): seq<Category> {
    Filter(cs, (c: Category) => c.userId == userId)
  }

  /** `ORDER BY name ASC` under SQLite's binary collation. */
  predicate ByName(a: CategoryView, b: CategoryView) {
    StrLe(a.name, b.name)
  }

  lemma ByNameIsTotalPreorder()
    ensures TotalPreorder(ByName)
  {
    forall a: CategoryView, b: CategoryView ensures ByName(a, b) || ByName(b, a) {
      StrLeTotal(a.name, b.name);
    }
    forall a: CategoryView, b: CategoryView, c: CategoryView | ByName(a, b) && ByName(b, c)
      ensures ByName(a, c)
    {
      StrLeTransitive(a.name, b.name, c.name);
    }
  }

  /** A projected row comes from some row of the table. */
  lemma ViewsMembership(cs: seq<Category>)
    ensures forall v :: v in Views(cs) <==> exists c :: c in cs && ViewOf(c) == v
  {
    forall v ensures v in Views(cs) <==> exists c :: c in cs && ViewOf(c) == v {
      if exists c :: c in cs && ViewOf(c) == v {
        var c :| c in cs && ViewOf(c) == v;
        var i :| 0 <= i < |cs| && cs[i] == c;
        assert Views(cs)[i] == v;
      }
    }
  }

  /** findAllCategories: exactly the caller's categories, projected, sorted by name. */
  function FindAllCategories(cs: seq<Category>, userId: int): (r: seq<CategoryView>)
    ensures forall i, j :: 0 <= i < j < |r| ==> StrLe(r[i].name, r[j].name)
    ensures multiset(r) == multiset(Views(OwnedCategories(cs, userId)))
    ensures forall v :: v in r <==> exists c :: c in cs && c.userId == userId && ViewOf(c) == v
  {
    ByNameIsTotalPreorder();
    var owned := OwnedCategories(cs, userId);
    var r := SortBy(Views(owned), ByName);
    ViewsMembership(owned);
    SameMultisetSameElements(r, Views(owned));
    r
  }

  // ---- update payload semantics ----

  /** `updateCategoryDto.name` is truthy: present, not null and not empty. */
  predicate NameGiven(name: Patch<string>) {
    name.Set? && name.value != ""
  }

  /** The category after `Object.assign(category, { ...dto, name })`. */
  function Renamed(c: Category, name: Patch<string>, color: Patch<string>): (r: Category)
    ensures r.id == c.id && r.userId == c.userId
    ensures IsLowerCase(c.name) ==> IsLowerCase(r.name)
  {
    var newColor := match color { case Keep => c.color case SetNull => None case Set(v) => Some(v) };
    if NameGiven(name) then
      LowerIsLowerCase(name.value);
      Category(c.id, Lower(name.value), newColor, c.userId)
    else
      Category(c.id, c.name, newColor, c.userId)
  }

  /** The rename is refused: a new name differing from the current one is taken by another owned category. */
  predicate RenameConflicts(cs: seq<Category>, c: Category, name: Patch<string>) {
    NameGiven(name) && Lower(name.value) != c.name && HasCategoryNamed(cs, Lower(name.value), c.userId)
  }

  /** With names stored lower-cased, looking up the lower-cased name finds a
      category exactly when one of the owner's names equals it up to letter case. */
  lemma NameTakenMeans(cs: seq<Category>, name: string, userId: int)
    requires CategoryNamesValid(cs)
    ensures HasCategoryNamed(cs, Lower(name), userId) <==>
      exists c :: c in cs && c.userId == userId && Lower(c.name) == Lower(name)
  {
    forall c | c in cs ensures Lower(c.name) == c.name {
      LowerOfLowerCase(c.name);
    }
  }

  // ---- commands ----

  /** createCategory: Conflict when the caller already owns the lower-cased name;
      a failing insert (the owner row is missing) is reported as Conflict too. */
  method CreateCategory(db: Db, name: string, color: Option<string>, userId: nat) returns (r: Result<Category>)
    requires db.Valid()
    modifies db
    ensures db.Valid()
    ensures db.users == old(db.users) && db.transactions == old(db.transactions)
    ensures db.nextTransactionId == old(db.nextTransactionId)
    ensures r.Ok? <==> !HasCategoryNamed(old(db.categories), Lower(name), userId) && HasUser(old(db.users), userId)
    ensures r.Err? ==> r.error == Conflict && unchanged(db)
    ensures r.Ok? ==>
      && r.value == Category(old(db.nextCategoryId), Lower(name), color, userId)
      && db.categories == old(db.categories) + [r.value]
      && db.nextCategoryId == old(db.nextCategoryId) + 1
  {
    var lowered := Lower(name);
    if HasCategoryNamed(db.categories, lowered, userId) {
      return Err(Conflict);
    }
    if !HasUser(db.users, userId) {
      return Err(Conflict);
    }
    var c := Category(db.nextCategoryId, lowered, color, userId);
    LowerIsLowerCase(name);
    CategoryInsertKeepsConsistent(db.users, db.categories, db.transactions, db.nextCategoryId, db.nextTransactionId, c);
    db.categories := db.categories + [c];
    db.nextCategoryId := db.nextCategoryId + 1;
    r := Ok(c);
  }

  /** updateCategory: NotFound for a category the caller does not own, Conflict
      when the rename collides; otherwise the name (lower-cased, when one is
      given) and the colour (when supplied) are saved. */
  method UpdateCategory(db: Db, id: int, name: Patch<string>, color: Patch<string>, userId: nat)
    returns (r: Result<CategoryView>)
    requires db.Valid()
    modifies db
    ensures db.Valid()
    ensures db.users == old(db.users) && db.transactions == old(db.transactions)
    ensures db.nextCategoryId == old(db.nextCategoryId) && db.nextTransactionId == old(db.nextTransactionId)
    ensures !OwnsCategory(old(db.categories), id, userId) ==> r == Err(NotFound) && unchanged(db)
    ensures forall c :: c in old(db.categories) && c.id == id && c.userId == userId ==>
      if RenameConflicts(old(db.categories), c, name) then
        r == Err(Conflict) && unchanged(db)
      else
        r == Ok(ViewOf(Renamed(c, name, color))) && db.categories == SaveCategory(old(db.categories), Renamed(c, name, color))
  {
    var found := FindOneCategory(db.categories, id, userId);
    if found.Err? {
      return Err(NotFound);
    }
    var c :| c in db.categories && c.id == id && c.userId == userId && found.value == ViewOf(c);
    if NameGiven(name) && Lower(name.value) != found.value.name && HasCategoryNamed(db.categories, Lower(name.value), userId) {
      return Err(Conflict);
    }
    var updated := Renamed(c, name, color);
    if NameGiven(name) {
      LowerIsLowerCase(name.value);
    }
    CategorySaveKeepsConsistent(db.users, db.categories, db.transactions, db.nextCategoryId, db.nextTransactionId, c, updated);
    db.categories := SaveCategory(db.categories, updated);
    r := Ok(ViewOf(updated));
  }

  /** removeCategory: NotFound when the caller owns no such category; otherwise
      the row is deleted and the transactions that referenced it keep existing
      with no category (ON DELETE SET NULL). */
  method RemoveCategory(db: Db, id: int, userId: nat) returns (r: Outcome)
    requires db.Valid()
    modifies db
    ensures db.Valid()
    ensures db.users == old(db.users)
    ensures db.nextCategoryId == old(db.nextCategoryId) && db.nextTransactionId == old(db.nextTransactionId)
    ensures !OwnsCategory(old(db.categories), id, userId) ==> r == Failed(NotFound) && unchanged(db)
    ensures OwnsCategory(old(db.categories), id, userId) ==>
      && r == Done
      && db.categories == DeleteCategoryRow(old(db.categories), id, userId)
      && db.transactions == DetachCategory(old(db.transactions), id)
  {
    if !OwnsCategory(db.categories, id, userId) {
      return Failed(NotFound);
    }
    CategoryDeleteKeepsConsistent(db.users, db.categories, db.transactions, db.nextCategoryId, db.nextTransactionId, id, userId);
    db.categories := DeleteCategoryRow(db.categories, id, userId);
    db.transactions := DetachCategory(db.transactions, id);
    r := Done;
  }
}
