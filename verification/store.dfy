/** The database behind the services: the users, categories and transactions
    tables, the id sequences of the two tables the services insert into, and
    the row-level statements (delete where, set null, save) the services issue.
    The foreign keys are those the entities declare: a category and a
    transaction belong to an existing user (ON DELETE CASCADE), and a
    transaction's category, when set, is one of its owner's categories
    (ON DELETE SET NULL). */
module Store {
  import opened Domain
  import opened Seqs

  // ---- lookups ----

  predicate HasUser(us: seq<User>, id: int) {
    exists u :: u in us && u.id == id
  }

  /** The row `{ id, userId }` exists: the owner-scoped WHERE of the services. */
  predicate OwnsCategory(cs: seq<Category>, id: int, userId: int) {
    exists c :: c in cs && c.id == id && c.userId == userId
  }

  predicate HasCategoryNamed(cs: seq<Category>, name: string, userId: int) {
    exists c :: c in cs && c.name == name && c.userId == userId
  }

  predicate OwnsTransaction(ts: seq<Transaction>, id: int, userId: int) {
    exists t :: t in ts && t.id == id && t.userId == userId
  }

  // ---- table invariants ----

  ghost predicate UserIdsUnique(us: seq<User>) {
    forall a, b :: a in us && b in us && a.id == b.id ==> a == b
  }

  ghost predicate CategoryIdsUnique(cs: seq<Category>) {
    forall a, b :: a in cs && b in cs && a.id == b.id ==> a == b
  }

  ghost predicate TransactionIdsUnique(ts: seq<Transaction>) {
    forall a, b :: a in ts && b in ts && a.id == b.id ==> a == b
  }

  /** Names are stored lower-cased, and one owner never has two categories of the same name. */
  ghost predicate CategoryNamesValid(cs: seq<Category>) {
    && (forall c :: c in cs ==> IsLowerCase(c.name))
    && (forall a, b :: a in cs && b in cs && a.userId == b.userId && a.name == b.name ==> a == b)
  }

  ghost predicate CategoriesOwned(cs: seq<Category>, us: seq<User>) {
    forall c :: c in cs ==> HasUser(us, c.userId)
  }

  ghost predicate TransactionsOwned(ts: seq<Transaction>, us: seq<User>) {
    forall t :: t in ts ==> HasUser(us, t.userId)
  }

  ghost predicate CategoryRefsOwned(ts: seq<Transaction>, cs: seq<Category>) {
    forall t :: t in ts && t.categoryId.Some? ==> OwnsCategory(cs, t.categoryId.value, t.userId)
  }

  // ---- row-level statements ----

  /** `DELETE FROM category WHERE id = :id AND userId = :userId`. */
  function DeleteCategoryRow(cs: seq<Category>, id: int, userId: int): (r: seq<Category>)
    ensures forall c :: c in r <==> c in cs && !(c.id == id && c.userId == userId)
    ensures NoDuplicates(cs) ==> NoDuplicates(r)
    ensures !OwnsCategory(cs, id, userId) ==> r == cs
  {
    var r := Filter(cs, (c: Category) => !(c.id == id && c.userId == userId));
    if !OwnsCategory(cs, id, userId) then
      FilterKeepingAll(cs, (c: Category) => !(c.id == id && c.userId == userId));
      r
    else r
  }

  /** The user-deletion cascade on the category table. */
  function DeleteCategoriesOf(cs: seq<Category>, userId: int): (r: seq<Category>)
    ensures forall c :: c in r <==> c in cs && c.userId != userId
    ensures NoDuplicates(cs) ==> NoDuplicates(r)
  {
    Filter(cs, (c: Category) => c.userId != userId)
  }

  /** Saving an existing category: the row with its id is replaced. */
  function SaveCategory(cs: seq<Category>, c: Category): (r: seq<Category>)
    ensures forall x :: x in r <==> x == c || (x in cs && x.id != c.id)
    ensures NoDuplicates(cs) ==> NoDuplicates(r)
  {
    var kept := Filter(cs, (x: Category) => x.id != c.id);
    AppendKeepsNoDuplicates(kept, c);
    kept + [c]
  }

  /** `DELETE FROM transaction WHERE id = :id AND userId = :userId`. */
  function DeleteTransactionRow(ts: seq<Transaction>, id: int, userId: int): (r: seq<Transaction>)
    ensures forall t :: t in r <==> t in ts && !(t.id == id && t.userId == userId)
    ensures NoDuplicates(ts) ==> NoDuplicates(r)
    ensures !OwnsTransaction(ts, id, userId) ==> r == ts
  {
    var r := Filter(ts, (t: Transaction) => !(t.id == id && t.userId == userId));
    if !OwnsTransaction(ts, id, userId) then
      FilterKeepingAll(ts, (t: Transaction) => !(t.id == id && t.userId == userId));
      r
    else r
  }

  /** The user-deletion cascade on the transaction table. */
  function DeleteTransactionsOf(ts: seq<Transaction>, userId: int): (r: seq<Transaction>)
    ensures forall t :: t in r <==> t in ts && t.userId != userId
    ensures NoDuplicates(ts) ==> NoDuplicates(r)
  {
    Filter(ts, (t: Transaction) => t.userId != userId)
  }

  /** Saving an existing transaction: the row with its id is replaced. */
  function SaveTransaction(ts: seq<Transaction>, t: Transaction): (r: seq<Transaction>)
    ensures forall x :: x in r <==> x == t || (x in ts && x.id != t.id)
    ensures NoDuplicates(ts) ==> NoDuplicates(r)
  {
    var kept := Filter(ts, (x: Transaction) => x.id != t.id);
    AppendKeepsNoDuplicates(kept, t);
    kept + [t]
  }

  /** `DELETE FROM user WHERE id = :id`. */
  function DeleteUserRow(us: seq<User>, id: int): (r: seq<User>)
    ensures forall u :: u in r <==> u in us && u.id != id
    ensures NoDuplicates(us) ==> NoDuplicates(r)
  {
    Filter(us, (u: User) => u.id != id)
  }

  function Detached(t: Transaction, categoryId: int): Transaction {
    if t.categoryId == Some(categoryId) then t.(categoryId := None) else t
  }

  /** ON DELETE SET NULL: every row referencing the deleted category loses its category. */
  function DetachCategory(ts: seq<Transaction>, categoryId: int): (r: seq<Transaction>)
    ensures |r| == |ts|
    ensures forall i :: 0 <= i < |ts| ==> r[i] == Detached(ts[i], categoryId)
    ensures forall t :: t in r ==> t.categoryId != Some(categoryId)
  {
    if ts == [] then [] else [Detached(ts[0], categoryId)] + DetachCategory(ts[1..], categoryId)
  }

  // ---- helper lemmas ----

  lemma FilterKeepingAll<T(!new)>(s: seq<T>, keep: T -> bool)
    requires forall x :: x in s ==> keep(x)
    ensures Filter(s, keep) == s
  {
    if s != [] {
      FilterKeepingAll(s[1..], keep);
      assert s == [s[0]] + s[1..];
    }
  }

  /** A filter that drops exactly one element of a duplicate-free sequence is one shorter. */
  lemma {:induction false} FilterDroppingOne<T(!new)>(s: seq<T>, keep: T -> bool, x: T)
    requires NoDuplicates(s) && x in s && !keep(x)
    requires forall y :: y in s && y != x ==> keep(y)
    ensures |Filter(s, keep)| == |s| - 1
  {
    assert s == [s[0]] + s[1..];
    assert NoDuplicates(s[1..]) && s[0] !in s[1..];
    if s[0] == x {
      FilterKeepingAll(s[1..], keep);
    } else {
      FilterDroppingOne(s[1..], keep, x);
    }
  }

  /** In a duplicate-free table with unique ids, two positions hold two ids. */
  lemma IdsDistinctByIndex(ts: seq<Transaction>)
    requires NoDuplicates(ts) && TransactionIdsUnique(ts)
    ensures forall i, j :: 0 <= i < j < |ts| ==> ts[i].id != ts[j].id
  {
    forall i, j | 0 <= i < j < |ts| ensures ts[i].id != ts[j].id {
      assert ts[i] in ts && ts[j] in ts && ts[i] != ts[j];
    }
  }

  /** Rows whose ids differ position by position form a duplicate-free table with unique ids. */
  lemma DistinctIdsByIndex(r: seq<Transaction>)
    requires forall i, j :: 0 <= i < j < |r| ==> r[i].id != r[j].id
    ensures NoDuplicates(r) && TransactionIdsUnique(r)
  {
    forall a, b | a in r && b in r && a.id == b.id ensures a == b {
      var i :| 0 <= i < |r| && r[i] == a;
      var j :| 0 <= j < |r| && r[j] == b;
      assert !(i < j) && !(j < i);
    }
  }

  /** Setting a category to null keeps a duplicate-free table with unique ids duplicate-free. */
  lemma DetachKeepsRowsDistinct(ts: seq<Transaction>, categoryId: int)
    requires NoDuplicates(ts) && TransactionIdsUnique(ts)
    ensures NoDuplicates(DetachCategory(ts, categoryId))
    ensures TransactionIdsUnique(DetachCategory(ts, categoryId))
  {
    var r := DetachCategory(ts, categoryId);
    IdsDistinctByIndex(ts);
    assert forall i :: 0 <= i < |r| ==> r[i].id == ts[i].id;
    DistinctIdsByIndex(r);
  }

  /** The delete statements affect exactly one row when the row exists. */
  lemma DeleteCategoryRowRemovesOne(cs: seq<Category>, id: int, userId: int)
    requires NoDuplicates(cs) && CategoryIdsUnique(cs) && OwnsCategory(cs, id, userId)
    ensures |DeleteCategoryRow(cs, id, userId)| == |cs| - 1
  {
    var c :| c in cs && c.id == id && c.userId == userId;
    FilterDroppingOne(cs, (x: Category) => !(x.id == id && x.userId == userId), c);
  }

  lemma DeleteTransactionRowRemovesOne(ts: seq<Transaction>, id: int, userId: int)
    requires NoDuplicates(ts) && TransactionIdsUnique(ts) && OwnsTransaction(ts, id, userId)
    ensures |DeleteTransactionRow(ts, id, userId)| == |ts| - 1
  {
    var t :| t in ts && t.id == id && t.userId == userId;
    FilterDroppingOne(ts, (x: Transaction) => !(x.id == id && x.userId == userId), t);
  }

  lemma DeleteUserRowRemovesOne(us: seq<User>, id: int)
    requires NoDuplicates(us) && UserIdsUnique(us) && HasUser(us, id)
    ensures |DeleteUserRow(us, id)| == |us| - 1
  {
    var u :| u in us && u.id == id;
    FilterDroppingOne(us, (x: User) => x.id != id, u);
  }

  // ---- the database invariant and the transitions that keep it ----

  /** What every table state reachable through the services satisfies. */
  ghost predicate Consistent(us: seq<User>, cs: seq<Category>, ts: seq<Transaction>, nextCategoryId: nat, nextTransactionId: nat) {
    && 0 < nextCategoryId && 0 < nextTransactionId
    && NoDuplicates(us) && UserIdsUnique(us)
    && NoDuplicates(cs) && CategoryIdsUnique(cs)
    && NoDuplicates(ts) && TransactionIdsUnique(ts)
    && (forall c :: c in cs ==> 0 < c.id < nextCategoryId)
    && (forall t :: t in ts ==> 0 < t.id < nextTransactionId)
    && CategoryNamesValid(cs)
    && CategoriesOwned(cs, us)
    && TransactionsOwned(ts, us)
    && CategoryRefsOwned(ts, cs)
  }

  /** Inserting a category under a fresh id, with a lower-case name its owner does not hold yet. */
  lemma CategoryInsertKeepsConsistent(us: seq<User>, cs: seq<Category>, ts: seq<Transaction>, nc: nat, nt: nat, c: Category)
    requires Consistent(us, cs, ts, nc, nt)
    requires c.id == nc && IsLowerCase(c.name) && HasUser(us, c.userId)
    requires !HasCategoryNamed(cs, c.name, c.userId)
    ensures Consistent(us, cs + [c], ts, nc + 1, nt)
  {
    AppendKeepsNoDuplicates(cs, c);
    forall t | t in ts && t.categoryId.Some? ensures OwnsCategory(cs + [c], t.categoryId.value, t.userId) {
      var k :| k in cs && k.id == t.categoryId.value && k.userId == t.userId;
      assert k in cs + [c];
    }
  }

  /** Saving a category under its own id and owner, with a lower-case name that is
      either its current one or one its owner does not hold. */
  lemma CategorySaveKeepsConsistent(us: seq<User>, cs: seq<Category>, ts: seq<Transaction>, nc: nat, nt: nat, c: Category, c': Category)
    requires Consistent(us, cs, ts, nc, nt)
    requires c in cs && c'.id == c.id && c'.userId == c.userId && IsLowerCase(c'.name)
    requires c'.name == c.name || !HasCategoryNamed(cs, c'.name, c.userId)
    ensures Consistent(us, SaveCategory(cs, c'), ts, nc, nt)
  {
    var r := SaveCategory(cs, c');
    assert CategoryNamesValid(r);
    forall t | t in ts && t.categoryId.Some? ensures OwnsCategory(r, t.categoryId.value, t.userId) {
      var k :| k in cs && k.id == t.categoryId.value && k.userId == t.userId;
      if k.id == c'.id {
        assert k == c;
        assert c' in r;
      } else {
        assert k in r;
      }
    }
  }

  /** Deleting a category row and setting its references to null. */
  lemma CategoryDeleteKeepsConsistent(us: seq<User>, cs: seq<Category>, ts: seq<Transaction>, nc: nat, nt: nat, id: int, userId: int)
    requires Consistent(us, cs, ts, nc, nt)
    ensures Consistent(us, DeleteCategoryRow(cs, id, userId), DetachCategory(ts, id), nc, nt)
  {
    DetachKeepsRowsDistinct(ts, id);
    DetachKeepsReferences(us, cs, ts, nt, id, userId);
    SubsetKeepsKeys(us, us, cs, DeleteCategoryRow(cs, id, userId), ts, ts, nc, nt);
  }

  /** After the delete and the set-null, every transaction keeps its id and owner,
      and every remaining reference names a remaining category of the same owner. */
  lemma DetachKeepsReferences(us: seq<User>, cs: seq<Category>, ts: seq<Transaction>, nt: nat, id: int, userId: int)
    requires TransactionsOwned(ts, us) && CategoryRefsOwned(ts, cs)
    requires forall t :: t in ts ==> 0 < t.id < nt
    ensures forall t :: t in DetachCategory(ts, id) ==> 0 < t.id < nt
    ensures TransactionsOwned(DetachCategory(ts, id), us)
    ensures CategoryRefsOwned(DetachCategory(ts, id), DeleteCategoryRow(cs, id, userId))
  {
    var cs' := DeleteCategoryRow(cs, id, userId);
    var ts' := DetachCategory(ts, id);
    forall t | t in ts' ensures 0 < t.id < nt && HasUser(us, t.userId) {
      var i :| 0 <= i < |ts'| && ts'[i] == t;
      assert ts[i] in ts;
    }
    forall t | t in ts' && t.categoryId.Some? ensures OwnsCategory(cs', t.categoryId.value, t.userId) {
      var i :| 0 <= i < |ts'| && ts'[i] == t;
      assert ts[i] in ts && ts[i] == t;
      var k :| k in cs && k.id == t.categoryId.value && k.userId == t.userId;
      assert k in cs';
    }
  }

  /** Inserting a transaction under a fresh id, owned by an existing user, whose
      category (when set) belongs to the same user. */
  lemma TransactionInsertKeepsConsistent(us: seq<User>, cs: seq<Category>, ts: seq<Transaction>, nc: nat, nt: nat, t: Transaction)
    requires Consistent(us, cs, ts, nc, nt)
    requires t.id == nt && HasUser(us, t.userId)
    requires t.categoryId.Some? ==> OwnsCategory(cs, t.categoryId.value, t.userId)
    ensures Consistent(us, cs, ts + [t], nc, nt + 1)
  {
    AppendKeepsNoDuplicates(ts, t);
  }

  /** Saving a transaction under its own id and owner, with a category (when set) of that owner. */
  lemma TransactionSaveKeepsConsistent(us: seq<User>, cs: seq<Category>, ts: seq<Transaction>, nc: nat, nt: nat, t: Transaction, t': Transaction)
    requires Consistent(us, cs, ts, nc, nt)
    requires t in ts && t'.id == t.id && t'.userId == t.userId
    requires t'.categoryId.Some? ==> OwnsCategory(cs, t'.categoryId.value, t'.userId)
    ensures Consistent(us, cs, SaveTransaction(ts, t'), nc, nt)
  {
  }

  /** Deleting a transaction row. */
  lemma TransactionDeleteKeepsConsistent(us: seq<User>, cs: seq<Category>, ts: seq<Transaction>, nc: nat, nt: nat, id: int, userId: int)
    requires Consistent(us, cs, ts, nc, nt)
    ensures Consistent(us, cs, DeleteTransactionRow(ts, id, userId), nc, nt)
  {
  }

  /** After the cascade every remaining row still has its owner, and every remaining reference its category. */
  lemma CascadeKeepsReferences(us: seq<User>, cs: seq<Category>, ts: seq<Transaction>, id: int)
    requires CategoriesOwned(cs, us) && TransactionsOwned(ts, us) && CategoryRefsOwned(ts, cs)
    ensures CategoriesOwned(DeleteCategoriesOf(cs, id), DeleteUserRow(us, id))
    ensures TransactionsOwned(DeleteTransactionsOf(ts, id), DeleteUserRow(us, id))
    ensures CategoryRefsOwned(DeleteTransactionsOf(ts, id), DeleteCategoriesOf(cs, id))
  {
    var us', cs', ts' := DeleteUserRow(us, id), DeleteCategoriesOf(cs, id), DeleteTransactionsOf(ts, id);
    forall c | c in cs' ensures HasUser(us', c.userId) {
      var u :| u in us && u.id == c.userId;
      assert u in us';
    }
    forall t | t in ts' ensures HasUser(us', t.userId) {
      var u :| u in us && u.id == t.userId;
      assert u in us';
    }
    forall t | t in ts' && t.categoryId.Some? ensures OwnsCategory(cs', t.categoryId.value, t.userId) {
      var k :| k in cs && k.id == t.categoryId.value && k.userId == t.userId;
      assert k in cs';
    }
  }

  /** Dropping rows keeps the key and name invariants of what is left. */
  lemma SubsetKeepsKeys(us: seq<User>, us': seq<User>, cs: seq<Category>, cs': seq<Category>, ts: seq<Transaction>, ts': seq<Transaction>, nc: nat, nt: nat)
    requires forall u :: u in us' ==> u in us
    requires forall c :: c in cs' ==> c in cs
    requires forall t :: t in ts' ==> t in ts
    requires UserIdsUnique(us) && CategoryIdsUnique(cs) && TransactionIdsUnique(ts) && CategoryNamesValid(cs)
    requires (forall c :: c in cs ==> 0 < c.id < nc) && (forall t :: t in ts ==> 0 < t.id < nt)
    ensures UserIdsUnique(us') && CategoryIdsUnique(cs') && TransactionIdsUnique(ts') && CategoryNamesValid(cs')
    ensures (forall c :: c in cs' ==> 0 < c.id < nc) && (forall t :: t in ts' ==> 0 < t.id < nt)
  {
  }

  /** Deleting a user row together with the user's categories and transactions (ON DELETE CASCADE). */
  lemma UserDeleteKeepsConsistent(us: seq<User>, cs: seq<Category>, ts: seq<Transaction>, nc: nat, nt: nat, id: int)
    requires Consistent(us, cs, ts, nc, nt)
    ensures Consistent(DeleteUserRow(us, id), DeleteCategoriesOf(cs, id), DeleteTransactionsOf(ts, id), nc, nt)
    ensures HasUser(us, id) ==> |DeleteUserRow(us, id)| == |us| - 1
  {
    if HasUser(us, id) {
      DeleteUserRowRemovesOne(us, id);
    }
    CascadeKeepsReferences(us, cs, ts, id);
    SubsetKeepsKeys(us, DeleteUserRow(us, id), cs, DeleteCategoriesOf(cs, id), ts, DeleteTransactionsOf(ts, id), nc, nt);
  }

  // ---- the database ----

  class Db {
    var users: seq<User>
    var categories: seq<Category>
    var transactions: seq<Transaction>
    /** The next values of the two id sequences (PrimaryGeneratedColumn). */
    var nextCategoryId: nat
    var nextTransactionId: nat

    ghost predicate Valid()
      reads this
    {
      Consistent(users, categories, transactions, nextCategoryId, nextTransactionId)
    }

    /** A database holding the given accounts (created by sign-up) and no other rows. */
    constructor (accounts: seq<User>)
      requires NoDuplicates(accounts) && UserIdsUnique(accounts)
      ensures Valid()
      ensures users == accounts && categories == [] && transactions == []
      ensures nextCategoryId == 1 && nextTransactionId == 1
    {
      users := accounts;
      categories := [];
      transactions := [];
      nextCategoryId := 1;
      nextTransactionId := 1;
    }
  }
}
