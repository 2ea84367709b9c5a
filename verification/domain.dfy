/** The entities of the finance backend as values: users, categories and
    transactions, each row keyed by `id` and carrying its owner's id. */
module Domain {

  datatype Option<+T> = None | Some(value: T)

  /** The exceptions the services throw, by HTTP class. */
  datatype Error = NotFound | Conflict | BadRequest

  datatype Result<+T> = Ok(value: T) | Err(error: Error)

  /** Result of an operation that returns nothing on success (`Promise<void>`). */
  datatype Outcome = Done | Failed(error: Error)

  /** A field of an update payload: omitted, explicitly `null`, or a value. */
  datatype Patch<+T> = Keep | SetNull | Set(value: T)

  /** `Object.assign` on a NOT NULL field (the null case is refused by the save). */
  function Assign<T>(p: Patch<T>, current: T): T {
    if p.Set? then p.value else current
  }

  /** `Object.assign` on a nullable field. */
  function AssignNullable<T>(p: Patch<T>, current: Option<T>): Option<T> {
    match p
    case Keep => current
    case SetNull => None
    case Set(v) => Some(v)
  }

  datatype Role = USER | ADMIN

  datatype TxType = INCOME | EXPENSE

  /** A calendar date as the `date` column holds it; no calendar validity. */
  datatype Date = Date(year: nat, month: nat, day: nat)

  /** Chronological order on dates (reflexive). */
  predicate DateLe(a: Date, b: Date) {
    a.year < b.year || (a.year == b.year && (a.month < b.month || (a.month == b.month && a.day <= b.day)))
  }

  datatype User = User(id: nat, email: string, passwordHash: string, role: Role)

  datatype Category = Category(id: nat, name: string, color: Option<string>, userId: nat)

  /** The `id`, `name`, `color` projection the category queries select. */
  datatype CategoryView = CategoryView(id: nat, name: string, color: Option<string>)

  /** A transaction row; `amount` is in cents (the column is decimal(10,2)). */
  datatype Transaction = Transaction(
    id: nat,
    amount: int,
    description: string,
    date: Date,
    txType: TxType,
    notes: Option<string>,
    userId: nat,
    categoryId: Option<nat>)

  function ViewOf(c: Category): CategoryView {
    CategoryView(c.id, c.name, c.color)
  }

  /** JavaScript's truthiness of an optional numeric id: absent, null and 0 are falsy. */
  predicate Truthy(id: Option<int>) {
    id.Some? && id.value != 0
  }

  // ---- case folding (`toLowerCase`, restricted to ASCII letters) ----

  predicate IsUpperChar(c: char) {
    'A' <= c <= 'Z'
  }

  function LowerChar(c: char): char {
    if IsUpperChar(c) then (c as int + 32) as char else c
  }

  function Lower(s: string): string {
    if s == [] then [] else [LowerChar(s[0])] + Lower(s[1..])
  }

  predicate IsLowerCase(s: string) {
    forall i :: 0 <= i < |s| ==> !IsUpperChar(s[i])
  }

  lemma {:induction false} LowerShape(s: string)
    ensures |Lower(s)| == |s|
    ensures forall i :: 0 <= i < |s| ==> Lower(s)[i] == LowerChar(s[i])
  {
    if s != [] {
      LowerShape(s[1..]);
    }
  }

  /** A lower-cased name has no upper-case letter left. */
  lemma LowerIsLowerCase(s: string)
    ensures IsLowerCase(Lower(s))
  {
    LowerShape(s);
  }

  /** Lower-casing changes nothing in a name that is already lower case. */
  lemma LowerOfLowerCase(s: string)
    requires IsLowerCase(s)
    ensures Lower(s) == s
  {
    LowerShape(s);
  }

  /** Lower-casing twice is lower-casing once. */
  lemma LowerIdempotent(s: string)
    ensures Lower(Lower(s)) == Lower(s)
  {
    LowerIsLowerCase(s);
    LowerOfLowerCase(Lower(s));
  }
}
