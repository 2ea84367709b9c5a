/** TransactionsService: per-owner CRUD on the transaction table and the
    filtered, newest-first listing. A transaction's category, when given,
    must be one of the caller's categories; the lookup goes through
    findOneCategory, so a foreign or missing category is NotFound. */
module Transactions {
  import opened Domain
  import opened Seqs
  import opened Store
  import opened Categories

  /** The body of a create request, after validation. */
  datatype NewTransaction = NewTransaction(
    amount: int,
    description: string,
    date: Date,
    txType: TxType,
    notes: Option<string>,
    categoryId: Option<int>)

  /** The body of an update request: every field may be omitted or sent as null. */
  datatype TransactionPatch = TransactionPatch(
    amount: Patch<int>,
    description: Patch<string>,
    date: Patch<Date>,
    txType: Patch<TxType>,
    notes: Patch<string>,
    categoryId: Patch<int>)

  /** The query parameters of the listing; `None` is an absent or empty parameter. */
  datatype Filters = Filters(
    txType: Option<string>,
    categoryId: Option<int>,
    startDate: Option<Date>,
    endDate: Option<Date>)

  const NoFilters := Filters(None, None, None, None)

  /** The value the `type` column holds. */
  function TypeName(k: TxType): string {
    match k
    case INCOME => "income"
    case EXPENSE => "expense"
  }

  // ---- queries ----

  /** The WHERE clause of findAllTransactions; a row with no category never
      equals a category filter. */
  predicate Matches(t: Transaction, userId: int, f: Filters) {
    && t.userId == userId
    && (f.txType.Some? ==> TypeName(t.txType) == f.txType.value)
    && (f.categoryId.Some? ==> t.categoryId.Some? && t.categoryId.value == f.categoryId.value)
    && (f.startDate.Some? ==> DateLe(f.startDate.value, t.date))
    && (f.endDate.Some? ==> DateLe(t.date, f.endDate.value))
  }

  function Select(ts: seq<Transaction>, userId: int, f: Filters): seq<Transaction> {
    Filter(ts, (t: Transaction) => Matches(t, userId, f))
  }

  /** `ORDER BY date DESC`. */
  predicate NewestFirst(a: Transaction, b: Transaction) {
    DateLe(b.date, a.date)
  }

  lemma NewestFirstIsTotalPreorder()
    ensures TotalPreorder(NewestFirst)
  {
  }

  /** findAllTransactions: exactly the caller's rows that pass every given
      filter, each as often as the table holds it, latest date first. */
  function FindAllTransactions(ts: seq<Transaction>, userId: int, f: Filters): (r: seq<Transaction>)
    ensures forall i, j :: 0 <= i < j < |r| ==> DateLe(r[j].date, r[i].date)
    ensures forall t :: multiset(r)[t] == if Matches(t, userId, f) then multiset(ts)[t] else 0
    ensures forall t :: t in r <==> t in ts && Matches(t, userId, f)
  {
    NewestFirstIsTotalPreorder();
    var selected := Select(ts, userId, f);
    var r := SortBy(selected, NewestFirst);
    SameMultisetSameElements(r, selected);
    r
  }

  /** findOneTransaction: the row `{ id, userId }`, or NotFound. */
  function FindOneTransaction(ts: seq<Transaction>, id: int, userId: int): (r: Result<Transaction>)
    ensures r.Ok? <==> OwnsTransaction(ts, id, userId)
    ensures r.Ok? ==> r.value in ts && r.value.id == id && r.value.userId == userId
    ensures r.Err? ==> r.error == NotFound
  {
    if ts == [] then Err(NotFound)
    else if ts[0].id == id && ts[0].userId == userId then Ok(ts[0])
    else
      assert ts == [ts[0]] + ts[1..];
      FindOneTransaction(ts[1..], id, userId)
  }

  // ---- payload semantics ----

  /** `categoryId || null`: a falsy id (absent, null, 0) stores no category. */
  function StoredCategory(categoryId: Option<int>): Option<nat> {
    if Truthy(categoryId) && categoryId.value >= 0 then Some(categoryId.value as nat) else None
  }

  /** The row a create request inserts under the next id. */
  function NewRow(dto: NewTransaction, id: nat, userId: nat): Transaction {
    Transaction(id, dto.amount, dto.description, dto.date, dto.txType, dto.notes, userId, StoredCategory(dto.categoryId))
  }

  /** The create request names a category the caller does not own. */
  predicate BadCategoryOnCreate(cs: seq<Category>, dto: NewTransaction, userId: int) {
    Truthy(dto.categoryId) && !OwnsCategory(cs, dto.categoryId.value, userId)
  }

  /** The update request names (not nulls) a category the caller does not own;
      unlike create, an id of 0 is looked up. */
  predicate BadCategoryOnUpdate(cs: seq<Category>, p: TransactionPatch, userId: int) {
    p.categoryId.Set? && !OwnsCategory(cs, p.categoryId.value, userId)
  }

  /** An explicit null on a NOT NULL column, which the save rejects. */
  predicate NullsRequiredField(p: TransactionPatch) {
    p.amount.SetNull? || p.description.SetNull? || p.date.SetNull? || p.txType.SetNull?
  }

  /** The category reference after the update: kept, cleared or replaced. */
  function PatchedCategory(current: Option<nat>, p: Patch<int>): Option<nat> {
    match p
    case Keep => current
    case SetNull => None
    case Set(v) => if v >= 0 then Some(v as nat) else None
  }

  /** The row after `Object.assign(transaction, dto)`. */
  function Patched(t: Transaction, p: TransactionPatch): (r: Transaction)
    ensures r.id == t.id && r.userId == t.userId
  {
    Transaction(
      t.id,
      Assign(p.amount, t.amount),
      Assign(p.description, t.description),
      Assign(p.date, t.date),
      Assign(p.txType, t.txType),
      AssignNullable(p.notes, t.notes),
      t.userId,
      PatchedCategory(t.categoryId, p.categoryId))
  }

  /** An update that sends no field leaves the row as it is. */
  lemma EmptyPatchKeepsRow(t: Transaction)
    ensures Patched(t, TransactionPatch(Keep, Keep, Keep, Keep, Keep, Keep)) == t
  {
  }

  /** Sending the same update twice gives the row the first one gave. */
  lemma PatchIdempotent(t: Transaction, p: TransactionPatch)
    ensures Patched(Patched(t, p), p) == Patched(t, p)
  {
  }

  // ---- commands ----

  /** createTransaction: NotFound when a truthy category id is not the caller's;
      BadRequest when the insert fails (the owner row is missing); otherwise the
      row is inserted under the next id. */
  method CreateTransaction(db: Db, dto: NewTransaction, userId: nat) returns (r: Result<Transaction>)
    requires db.Valid()
    modifies db
    ensures db.Valid()
    ensures db.users == old(db.users) && db.categories == old(db.categories)
    ensures db.nextCategoryId == old(db.nextCategoryId)
    ensures BadCategoryOnCreate(old(db.categories), dto, userId) ==> r == Err(NotFound) && unchanged(db)
    ensures !BadCategoryOnCreate(old(db.categories), dto, userId) && !HasUser(old(db.users), userId) ==>
      r == Err(BadRequest) && unchanged(db)
    ensures r.Ok? <==> !BadCategoryOnCreate(old(db.categories), dto, userId) && HasUser(old(db.users), userId)
    ensures r.Ok? ==>
      && r.value == NewRow(dto, old(db.nextTransactionId), userId)
      && db.transactions == old(db.transactions) + [r.value]
      && db.nextTransactionId == old(db.nextTransactionId) + 1
  {
    if Truthy(dto.categoryId) {
      var category := FindOneCategory(db.categories, dto.categoryId.value, userId);
      if category.Err? {
        return Err(NotFound);
      }
    }
    if !HasUser(db.users, userId) {
      return Err(BadRequest);
    }
    var t := NewRow(dto, db.nextTransactionId, userId);
    TransactionInsertKeepsConsistent(db.users, db.categories, db.transactions, db.nextCategoryId, db.nextTransactionId, t);
    db.transactions := db.transactions + [t];
    db.nextTransactionId := db.nextTransactionId + 1;
    r := Ok(t);
  }

  /** updateTransaction: NotFound for a transaction the caller does not own or
      a new category the caller does not own; BadRequest when a NOT NULL field
      is nulled; otherwise the patched row replaces the old one. */
  method UpdateTransaction(db: Db, id: int, p: TransactionPatch, userId: nat) returns (r: Result<Transaction>)
    requires db.Valid()
    modifies db
    ensures db.Valid()
    ensures db.users == old(db.users) && db.categories == old(db.categories)
    ensures db.nextCategoryId == old(db.nextCategoryId) && db.nextTransactionId == old(db.nextTransactionId)
    ensures !OwnsTransaction(old(db.transactions), id, userId) ==> r == Err(NotFound) && unchanged(db)
    ensures forall t :: t in old(db.transactions) && t.id == id && t.userId == userId ==>
      if BadCategoryOnUpdate(old(db.categories), p, userId) then
        r == Err(NotFound) && unchanged(db)
      else if NullsRequiredField(p) then
        r == Err(BadRequest) && unchanged(db)
      else
        r == Ok(Patched(t, p)) && db.transactions == SaveTransaction(old(db.transactions), Patched(t, p))
  {
    var found := FindOneTransaction(db.transactions, id, userId);
    if found.Err? {
      return Err(NotFound);
    }
    var t := found.value;
    if p.categoryId.Set? {
      var category := FindOneCategory(db.categories, p.categoryId.value, userId);
      if category.Err? {
        return Err(NotFound);
      }
    }
    if NullsRequiredField(p) {
      return Err(BadRequest);
    }
    var updated := Patched(t, p);
    assert updated.categoryId.Some? ==> OwnsCategory(db.categories, updated.categoryId.value, userId) by {
      if p.categoryId.Keep? {
        assert CategoryRefsOwned(db.transactions, db.categories);
      } else if p.categoryId.Set? {
        var c :| c in db.categories && c.id == p.categoryId.value && c.userId == userId;
        assert 0 < c.id;
      }
    }
    TransactionSaveKeepsConsistent(db.users, db.categories, db.transactions, db.nextCategoryId, db.nextTransactionId, t, updated);
    db.transactions := SaveTransaction(db.transactions, updated);
    r := Ok(updated);
  }

  /** removeTransaction: `DELETE ... WHERE { id, userId }`; NotFound when no row is affected. */
  method RemoveTransaction(db: Db, id: int, userId: nat) returns (r: Outcome)
    requires db.Valid()
    modifies db
    ensures db.Valid()
    ensures db.users == old(db.users) && db.categories == old(db.categories)
    ensures db.nextCategoryId == old(db.nextCategoryId) && db.nextTransactionId == old(db.nextTransactionId)
    ensures !OwnsTransaction(old(db.transactions), id, userId) ==> r == Failed(NotFound) && unchanged(db)
    ensures OwnsTransaction(old(db.transactions), id, userId) ==>
      r == Done && db.transactions == DeleteTransactionRow(old(db.transactions), id, userId)
  {
    if !OwnsTransaction(db.transactions, id, userId) {
      return Failed(NotFound);
    }
    TransactionDeleteKeepsConsistent(db.users, db.categories, db.transactions, db.nextCategoryId, db.nextTransactionId, id, userId);
    db.transactions := DeleteTransactionRow(db.transactions, id, userId);
    r := Done;
  }
}
