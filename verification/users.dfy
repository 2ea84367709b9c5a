/** UsersService: the administrator's view of the accounts. Listing exposes
    no password hash; deleting an account removes its categories and
    transactions with it (ON DELETE CASCADE on both tables). */
module Users {
  import opened Domain
  import opened Store

  /** The `id`, `email`, `role` projection of findAllUsers. */
  datatype UserView = UserView(id: nat, email: string, role: Role)

  function ViewOfUser(u: User): UserView {
    UserView(u.id, u.email, u.role)
  }

  /** findAllUsers: every account, in table order, without its password hash. */
  function FindAllUsers(us: seq<User>): (r: seq<UserView>)
    ensures |r| == |us|
    ensures forall i :: 0 <= i < |us| ==> r[i].id == us[i].id && r[i].email == us[i].email && r[i].role == us[i].role
    ensures forall v :: v in r <==> exists u :: u in us && ViewOfUser(u) == v
  {
    if us == [] then []
    else
      var rest := FindAllUsers(us[1..]);
      assert us == [us[0]] + us[1..];
      [ViewOfUser(us[0])] + rest
  }

  /** deleteUser: NotFound when no account has the id; otherwise the account
      and everything it owns are deleted. There is no role check: an ADMIN
      account is deleted like any other. */
  method DeleteUser(db: Db, id: int) returns (r: Outcome)
    requires db.Valid()
    modifies db
    ensures db.Valid()
    ensures db.nextCategoryId == old(db.nextCategoryId) && db.nextTransactionId == old(db.nextTransactionId)
    ensures !HasUser(old(db.users), id) ==> r == Failed(NotFound) && unchanged(db)
    ensures HasUser(old(db.users), id) ==>
      && r == Done
      && db.users == DeleteUserRow(old(db.users), id)
      && db.categories == DeleteCategoriesOf(old(db.categories), id)
      && db.transactions == DeleteTransactionsOf(old(db.transactions), id)
      && |db.users| == |old(db.users)| - 1
  {
    if !HasUser(db.users, id) {
      return Failed(NotFound);
    }
    UserDeleteKeepsConsistent(db.users, db.categories, db.transactions, db.nextCategoryId, db.nextTransactionId, id);
    var us, cs, ts := DeleteUserRow(db.users, id), DeleteCategoriesOf(db.categories, id), DeleteTransactionsOf(db.transactions, id);
    db.users, db.categories, db.transactions := us, cs, ts;
    r := Done;
  }

  /** After the cascade nothing refers to the deleted account, and every other
      account keeps all its rows. */
  lemma DeleteUserCascade(us: seq<User>, cs: seq<Category>, ts: seq<Transaction>, id: int)
    ensures forall u :: u in DeleteUserRow(us, id) ==> u.id != id
    ensures forall c :: c in DeleteCategoriesOf(cs, id) ==> c.userId != id
    ensures forall t :: t in DeleteTransactionsOf(ts, id) ==> t.userId != id
    ensures forall c :: c in cs && c.userId != id ==> c in DeleteCategoriesOf(cs, id)
    ensures forall t :: t in ts && t.userId != id ==> t in DeleteTransactionsOf(ts, id)
  {
  }
}
