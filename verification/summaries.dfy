/** The two aggregate reports of the transaction service: the caller's total
    income, total expense and balance, and the amounts grouped by category
    name (one list per transaction type) over an optional date range.
    Amounts are integer cents, so the sums are exact. */
module Summaries {
  import opened Domain
  import opened Seqs
  import opened Store
  import opened Transactions

  // ---- getFinancialSummary ----

  datatype Summary = Summary(totalIncome: int, totalExpense: int, balance: int)

  /** The sum of the amounts of the rows of type `k`. */
  function Total(rows: seq<Transaction>, k: TxType): int {
    if rows == [] then 0
    else (if rows[0].txType == k then rows[0].amount else 0) + Total(rows[1..], k)
  }

  lemma {:induction false} TotalAppend(a: seq<Transaction>, b: seq<Transaction>, k: TxType)
    ensures Total(a + b, k) == Total(a, k) + Total(b, k)
  {
    if a == [] {
      assert a + b == b;
    } else {
      assert (a + b)[0] == a[0];
      assert (a + b)[1..] == a[1..] + b;
      TotalAppend(a[1..], b, k);
    }
  }

  lemma TotalCons(x: Transaction, rest: seq<Transaction>, k: TxType)
    ensures Total([x] + rest, k) == (if x.txType == k then x.amount else 0) + Total(rest, k)
  {
    assert ([x] + rest)[0] == x && ([x] + rest)[1..] == rest;
  }

  lemma TotalRemove(b: seq<Transaction>, j: nat, k: TxType)
    requires j < |b|
    ensures Total(b, k) == (if b[j].txType == k then b[j].amount else 0) + Total(b[..j] + b[j + 1..], k)
    ensures multiset(b[..j] + b[j + 1..]) == multiset(b) - multiset{b[j]}
  {
    assert b == b[..j] + ([b[j]] + b[j + 1..]);
    TotalAppend(b[..j], [b[j]] + b[j + 1..], k);
    TotalCons(b[j], b[j + 1..], k);
    TotalAppend(b[..j], b[j + 1..], k);
  }

  lemma MultisetTail(a: seq<Transaction>)
    requires a != []
    ensures multiset(a[1..]) == multiset(a) - multiset{a[0]}
  {
    assert a == [a[0]] + a[1..];
  }

  /** The total does not depend on the order the rows come in. */
  lemma {:induction false} TotalPermutation(a: seq<Transaction>, b: seq<Transaction>, k: TxType)
    requires multiset(a) == multiset(b)
    ensures Total(a, k) == Total(b, k)
    decreases |a|
  {
    if a != [] {
      var x := a[0];
      assert x in multiset(b);
      var j :| 0 <= j < |b| && b[j] == x;
      var b' := b[..j] + b[j + 1..];
      TotalRemove(b, j, k);
      MultisetTail(a);
      TotalPermutation(a[1..], b', k);
    }
  }

  /** Filtering away rows of other types does not change a type's total. */
  lemma {:induction false} TotalIgnoresOtherTypes(ts: seq<Transaction>, keep: Transaction -> bool, keep': Transaction -> bool, k: TxType)
    requires forall t: Transaction :: t.txType == k ==> keep(t) == keep'(t)
    ensures Total(Filter(ts, keep), k) == Total(Filter(ts, keep'), k)
  {
    if ts != [] {
      var x := ts[0];
      var r, r' := Filter(ts[1..], keep), Filter(ts[1..], keep');
      TotalIgnoresOtherTypes(ts[1..], keep, keep', k);
      assert Filter(ts, keep) == if keep(x) then [x] + r else r;
      assert Filter(ts, keep') == if keep'(x) then [x] + r' else r';
      TotalCons(x, r, k);
      TotalCons(x, r', k);
    }
  }

  /** Extending a prefix by one row adds that row's amount when it has type `k`. */
  lemma TotalStep(rows: seq<Transaction>, i: nat, k: TxType)
    requires i < |rows|
    ensures Total(rows[..i + 1], k) == Total(rows[..i], k) + (if rows[i].txType == k then rows[i].amount else 0)
  {
    assert rows[..i + 1] == rows[..i] + [rows[i]];
    TotalAppend(rows[..i], [rows[i]], k);
  }

  /** getFinancialSummary: the caller's rows summed by type in one pass. */
  method GetFinancialSummary(ts: seq<Transaction>, userId: int) returns (s: Summary)
    ensures s.totalIncome == Total(Select(ts, userId, NoFilters), INCOME)
    ensures s.totalExpense == Total(Select(ts, userId, NoFilters), EXPENSE)
    ensures s.balance == s.totalIncome - s.totalExpense
  {
    var rows := Select(ts, userId, NoFilters);
    var totalIncome, totalExpense := 0, 0;
    for i := 0 to |rows|
      invariant totalIncome == Total(rows[..i], INCOME)
      invariant totalExpense == Total(rows[..i], EXPENSE)
    {
      TotalStep(rows, i, INCOME);
      TotalStep(rows, i, EXPENSE);
      if rows[i].txType == INCOME {
        totalIncome := totalIncome + rows[i].amount;
      } else if rows[i].txType == EXPENSE {
        totalExpense := totalExpense + rows[i].amount;
      }
    }
    assert rows[..|rows|] == rows;
    s := Summary(totalIncome, totalExpense, totalIncome - totalExpense);
  }

  /** The summary's income (expense) total is the sum of the amounts the
      listing filtered by that type shows. */
  lemma SummaryAgreesWithListing(ts: seq<Transaction>, userId: int, k: TxType)
    ensures Total(Select(ts, userId, NoFilters), k)
         == Total(FindAllTransactions(ts, userId, Filters(Some(TypeName(k)), None, None, None)), k)
  {
    var f := Filters(Some(TypeName(k)), None, None, None);
    var listed := FindAllTransactions(ts, userId, f);
    var selected := Select(ts, userId, f);
    assert forall t :: multiset(listed)[t] == multiset(selected)[t];
    assert multiset(listed) == multiset(selected);
    TotalPermutation(listed, selected, k);
    TotalIgnoresOtherTypes(ts, (t: Transaction) => Matches(t, userId, NoFilters), (t: Transaction) => Matches(t, userId, f), k);
  }

  // ---- getTransactionsSummaryByCategory ----

  /** One entry of `incomeByCategory` / `expenseByCategory`. */
  datatype Group = Group(categoryName: string, amount: int, categoryColor: string)

  datatype CategorySummary = CategorySummary(incomeByCategory: seq<Group>, expenseByCategory: seq<Group>)

  /** The category the left join attaches to a row: the one with the referenced id. */
  function JoinedCategory(cs: seq<Category>, categoryId: Option<nat>): (r: Option<Category>)
    ensures r.Some? ==> r.value in cs && categoryId == Some(r.value.id)
    ensures r.None? ==> categoryId.None? || forall c :: c in cs ==> c.id != categoryId.value
  {
    if categoryId.None? || cs == [] then None
    else if cs[0].id == categoryId.value then Some(cs[0])
    else
      assert cs == [cs[0]] + cs[1..];
      JoinedCategory(cs[1..], categoryId)
  }

  /** `transaction.category?.name || 'Outros'`. */
  function LabelOf(t: Transaction, cs: seq<Category>): string {
    var c := JoinedCategory(cs, t.categoryId);
    if c.Some? && c.value.name != "" then c.value.name else "Outros"
  }

  /** `transaction.category?.color || '#808080'`. */
  function ColorOf(t: Transaction, cs: seq<Category>): string {
    var c := JoinedCategory(cs, t.categoryId);
    if c.Some? && c.value.color.Some? && c.value.color.value != "" then c.value.color.value else "#808080"
  }

  /** `map.get(name)`: the position of the entry for `name`, or -1. */
  function GroupIndex(gs: seq<Group>, name: string): (k: int)
    ensures -1 <= k < |gs|
    ensures k >= 0 ==> gs[k].categoryName == name
    ensures k < 0 <==> forall i :: 0 <= i < |gs| ==> gs[i].categoryName != name
  {
    if gs == [] then -1
    else if gs[0].categoryName == name then 0
    else
      var k := GroupIndex(gs[1..], name);
      if k < 0 then -1 else k + 1
  }

  /** One `get` / `+=` / `set` round on a Map kept in insertion order: a new
      name is appended with the row's colour, a known one only grows. */
  function AddTo(gs: seq<Group>, name: string, color: string, amount: int): seq<Group> {
    var k := GroupIndex(gs, name);
    if k < 0 then gs + [Group(name, amount, color)]
    else gs[k := gs[k].(amount := gs[k].amount + amount)]
  }

  /** The Map of type `k` after the rows have been folded in, in row order. */
  function Grouped(rows: seq<Transaction>, cs: seq<Category>, k: TxType): seq<Group> {
    if rows == [] then []
    else
      var gs := Grouped(rows[..|rows| - 1], cs, k);
      var t := rows[|rows| - 1];
      if t.txType == k then AddTo(gs, LabelOf(t, cs), ColorOf(t, cs), t.amount) else gs
  }

  /** Folding in one more row. */
  lemma GroupedStep(rows: seq<Transaction>, i: nat, cs: seq<Category>, k: TxType)
    requires i < |rows|
    ensures Grouped(rows[..i + 1], cs, k)
         == if rows[i].txType == k then AddTo(Grouped(rows[..i], cs, k), LabelOf(rows[i], cs), ColorOf(rows[i], cs), rows[i].amount)
            else Grouped(rows[..i], cs, k)
  {
    assert rows[..i + 1][..i] == rows[..i];
  }

  /** getTransactionsSummaryByCategory: the caller's rows in the date range,
      folded into one Map per type. */
  method GetTransactionsSummaryByCategory(ts: seq<Transaction>, cs: seq<Category>, userId: int, startDate: Option<Date>, endDate: Option<Date>)
    returns (s: CategorySummary)
    ensures s.incomeByCategory == Grouped(Select(ts, userId, Filters(None, None, startDate, endDate)), cs, INCOME)
    ensures s.expenseByCategory == Grouped(Select(ts, userId, Filters(None, None, startDate, endDate)), cs, EXPENSE)
  {
    var rows := Select(ts, userId, Filters(None, None, startDate, endDate));
    var income: seq<Group> := [];
    var expense: seq<Group> := [];
    for i := 0 to |rows|
      invariant income == Grouped(rows[..i], cs, INCOME)
      invariant expense == Grouped(rows[..i], cs, EXPENSE)
    {
      var t := rows[i];
      var name := LabelOf(t, cs);
      var color := ColorOf(t, cs);
      GroupedStep(rows, i, cs, INCOME);
      GroupedStep(rows, i, cs, EXPENSE);
      if t.txType == INCOME {
        income := AddTo(income, name, color, t.amount);
      } else {
        expense := AddTo(expense, name, color, t.amount);
      }
    }
    assert rows[..|rows|] == rows;
    s := CategorySummary(income, expense);
  }

  // ---- what the grouping means ----

  predicate HasGroup(gs: seq<Group>, name: string) {
    exists g :: g in gs && g.categoryName == name
  }

  predicate NamesDistinct(gs: seq<Group>) {
    forall i, j :: 0 <= i < j < |gs| ==> gs[i].categoryName != gs[j].categoryName
  }

  /** The row is of type `k` and carries the label `name`. */
  predicate Labelled(t: Transaction, cs: seq<Category>, k: TxType, name: string) {
    t.txType == k && LabelOf(t, cs) == name
  }

  predicate HasLabelled(rows: seq<Transaction>, cs: seq<Category>, k: TxType, name: string) {
    exists t :: t in rows && Labelled(t, cs, k, name)
  }

  /** The sum of the amounts of the rows of type `k` labelled `name`. */
  function LabelledTotal(rows: seq<Transaction>, cs: seq<Category>, k: TxType, name: string): int {
    if rows == [] then 0
    else
      var t := rows[|rows| - 1];
      LabelledTotal(rows[..|rows| - 1], cs, k, name) + (if Labelled(t, cs, k, name) then t.amount else 0)
  }

  /** The colour of the earliest row of type `k` labelled `name`. */
  function FirstColor(rows: seq<Transaction>, cs: seq<Category>, k: TxType, name: string): Option<string> {
    if rows == [] then None
    else
      var t := rows[|rows| - 1];
      var earlier := FirstColor(rows[..|rows| - 1], cs, k, name);
      if earlier.Some? then earlier
      else if Labelled(t, cs, k, name) then Some(ColorOf(t, cs))
      else None
  }

  lemma {:induction false} NothingLabelled(rows: seq<Transaction>, cs: seq<Category>, k: TxType, name: string)
    requires forall t :: t in rows ==> !Labelled(t, cs, k, name)
    ensures LabelledTotal(rows, cs, k, name) == 0
    ensures FirstColor(rows, cs, k, name) == None
  {
    if rows != [] {
      var p := rows[..|rows| - 1];
      assert forall t :: t in p ==> t in rows;
      NothingLabelled(p, cs, k, name);
      assert rows[|rows| - 1] in rows;
    }
  }

  /** What one Map round does to the entries. */
  lemma AddToEntries(gs: seq<Group>, name: string, color: string, amount: int)
    requires NamesDistinct(gs)
    ensures NamesDistinct(AddTo(gs, name, color, amount))
    ensures forall g :: g in AddTo(gs, name, color, amount) && g.categoryName != name ==> g in gs
    ensures forall g :: g in gs && g.categoryName != name ==> g in AddTo(gs, name, color, amount)
    ensures forall g :: g in AddTo(gs, name, color, amount) && g.categoryName == name ==>
      if exists h :: h in gs && h.categoryName == name then
        exists h :: h in gs && h.categoryName == name && g == h.(amount := h.amount + amount)
      else g == Group(name, amount, color)
    ensures exists g :: g in AddTo(gs, name, color, amount) && g.categoryName == name
  {
    var r := AddTo(gs, name, color, amount);
    var k := GroupIndex(gs, name);
    if k < 0 {
      assert r[|gs|] == Group(name, amount, color);
      forall i, j | 0 <= i < j < |r| ensures r[i].categoryName != r[j].categoryName {
        if j < |gs| {
          assert r[i] == gs[i] && r[j] == gs[j];
        } else {
          assert r[i] == gs[i];
        }
      }
      forall g | g in r && g.categoryName != name ensures g in gs {
        var i :| 0 <= i < |r| && r[i] == g;
        assert i < |gs|;
        assert r[i] == gs[i];
      }
      forall g | g in gs ensures g in r {
        var i :| 0 <= i < |gs| && gs[i] == g;
        assert r[i] == g;
      }
    } else {
      forall i, j | 0 <= i < j < |r| ensures r[i].categoryName != r[j].categoryName {
        assert r[i].categoryName == gs[i].categoryName && r[j].categoryName == gs[j].categoryName;
      }
      forall g | g in r && g.categoryName != name ensures g in gs {
        var i :| 0 <= i < |r| && r[i] == g;
        assert i != k;
      }
      forall g | g in gs && g.categoryName != name ensures g in r {
        var i :| 0 <= i < |gs| && gs[i] == g;
        assert i != k && r[i] == g;
      }
      forall g | g in r && g.categoryName == name
        ensures exists h :: h in gs && h.categoryName == name && g == h.(amount := h.amount + amount)
      {
        var i :| 0 <= i < |r| && r[i] == g;
        assert i == k;
        assert gs[k] in gs;
      }
      assert r[k] in r;
    }
  }

  /** The entries `gs` describe the rows of type `k`: distinct names, one per
      label of such a row, its amount the sum over the rows with that label,
      its colour the colour of the first of them. */
  ghost predicate Describes(gs: seq<Group>, rows: seq<Transaction>, cs: seq<Category>, k: TxType) {
    && NamesDistinct(gs)
    && (forall g :: g in gs ==>
          g.amount == LabelledTotal(rows, cs, k, g.categoryName) && FirstColor(rows, cs, k, g.categoryName) == Some(g.categoryColor))
    && (forall name :: HasGroup(gs, name) <==> HasLabelled(rows, cs, k, name))
  }

  /** A row of another type changes neither the entries nor what they describe. */
  lemma DescribesOtherType(gs: seq<Group>, p: seq<Transaction>, t: Transaction, cs: seq<Category>, k: TxType)
    requires Describes(gs, p, cs, k) && t.txType != k
    ensures Describes(gs, p + [t], cs, k)
  {
    var rows := p + [t];
    assert rows[..|rows| - 1] == p && rows[|rows| - 1] == t;
    forall name ensures HasGroup(gs, name) <==> HasLabelled(rows, cs, k, name) {
      HasLabelledStep(p, t, cs, k, name);
    }
  }

  /** The per-label sum and first colour after one more row. */
  lemma LabelledStep(p: seq<Transaction>, t: Transaction, cs: seq<Category>, k: TxType, name: string)
    ensures LabelledTotal(p + [t], cs, k, name) == LabelledTotal(p, cs, k, name) + (if Labelled(t, cs, k, name) then t.amount else 0)
    ensures FirstColor(p + [t], cs, k, name) ==
      if FirstColor(p, cs, k, name).Some? then FirstColor(p, cs, k, name)
      else if Labelled(t, cs, k, name) then Some(ColorOf(t, cs))
      else None
  {
    var rows := p + [t];
    assert rows[..|rows| - 1] == p && rows[|rows| - 1] == t;
  }

  /** One entry after a row of the type is folded in with `AddTo`. */
  lemma EntrySameType(gs: seq<Group>, p: seq<Transaction>, t: Transaction, cs: seq<Category>, k: TxType, g: Group)
    requires NamesDistinct(gs) && t.txType == k
    requires forall h :: h in gs ==>
      h.amount == LabelledTotal(p, cs, k, h.categoryName) && FirstColor(p, cs, k, h.categoryName) == Some(h.categoryColor)
    requires !HasGroup(gs, LabelOf(t, cs)) ==> !HasLabelled(p, cs, k, LabelOf(t, cs))
    requires g in AddTo(gs, LabelOf(t, cs), ColorOf(t, cs), t.amount)
    ensures g.amount == LabelledTotal(p + [t], cs, k, g.categoryName)
    ensures FirstColor(p + [t], cs, k, g.categoryName) == Some(g.categoryColor)
  {
    var tag := LabelOf(t, cs);
    LabelledStep(p, t, cs, k, g.categoryName);
    var at := GroupIndex(gs, tag);
    if g.categoryName != tag {
      AddToOther(gs, tag, ColorOf(t, cs), t.amount, g);
    } else if at >= 0 {
      AddToSame(gs, tag, ColorOf(t, cs), t.amount, g);
      assert gs[at] in gs;
      EntryGrows(p, t, cs, k, gs[at]);
    } else {
      AddToSame(gs, tag, ColorOf(t, cs), t.amount, g);
      assert !HasGroup(gs, tag);
      assert !HasLabelled(p, cs, k, tag);
      NothingLabelled(p, cs, k, tag);
    }
  }

  /** An entry of another name after one Map round was there before. */
  lemma AddToOther(gs: seq<Group>, name: string, color: string, amount: int, g: Group)
    requires g in AddTo(gs, name, color, amount) && g.categoryName != name
    ensures g in gs
  {
    var r := AddTo(gs, name, color, amount);
    var i :| 0 <= i < |r| && r[i] == g;
    if GroupIndex(gs, name) < 0 {
      assert i < |gs| && r[i] == gs[i];
    } else {
      assert i != GroupIndex(gs, name);
    }
  }

  /** The entry named `name` after one Map round: the old one grown, or a new one. */
  lemma AddToSame(gs: seq<Group>, name: string, color: string, amount: int, g: Group)
    requires NamesDistinct(gs)
    requires g in AddTo(gs, name, color, amount) && g.categoryName == name
    ensures GroupIndex(gs, name) >= 0 ==> g == gs[GroupIndex(gs, name)].(amount := gs[GroupIndex(gs, name)].amount + amount)
    ensures GroupIndex(gs, name) < 0 ==> g == Group(name, amount, color) && !HasGroup(gs, name)
  {
    var r := AddTo(gs, name, color, amount);
    var at := GroupIndex(gs, name);
    if at < 0 {
      forall j | 0 <= j < |gs| ensures r[j].categoryName != name {
        assert r[j] == gs[j];
      }
      assert forall h :: h in gs ==> h.categoryName != name;
    } else {
      forall j | 0 <= j < |r| && j != at ensures r[j].categoryName != name {
        assert r[j] == gs[j];
      }
    }
  }

  /** An entry whose label the new row carries grows by the row's amount and keeps its colour. */
  lemma EntryGrows(p: seq<Transaction>, t: Transaction, cs: seq<Category>, k: TxType, h: Group)
    requires t.txType == k && h.categoryName == LabelOf(t, cs)
    requires h.amount == LabelledTotal(p, cs, k, h.categoryName) && FirstColor(p, cs, k, h.categoryName) == Some(h.categoryColor)
    ensures h.amount + t.amount == LabelledTotal(p + [t], cs, k, h.categoryName)
    ensures FirstColor(p + [t], cs, k, h.categoryName) == Some(h.categoryColor)
  {
    LabelledStep(p, t, cs, k, h.categoryName);
  }

  /** After one Map round the names present are the old ones and `name`. */
  lemma AddToHasGroup(gs: seq<Group>, name: string, color: string, amount: int, n: string)
    ensures HasGroup(AddTo(gs, name, color, amount), n) <==> n == name || HasGroup(gs, n)
  {
    var r := AddTo(gs, name, color, amount);
    var k := GroupIndex(gs, name);
    if k < 0 {
      assert r[|gs|] in r;
      if HasGroup(r, n) && n != name {
        var g :| g in r && g.categoryName == n;
        var i :| 0 <= i < |r| && r[i] == g;
        assert gs[i] == g;
      }
      if HasGroup(gs, n) {
        var g :| g in gs && g.categoryName == n;
        var i :| 0 <= i < |gs| && gs[i] == g;
        assert r[i] == g;
      }
    } else {
      assert r[k] in r;
      if HasGroup(r, n) && n != name {
        var g :| g in r && g.categoryName == n;
        var i :| 0 <= i < |r| && r[i] == g;
        assert i != k && gs[i] == g;
      }
      if HasGroup(gs, n) && n != name {
        var g :| g in gs && g.categoryName == n;
        var i :| 0 <= i < |gs| && gs[i] == g;
        assert r[i] == g;
      }
    }
  }

  /** A label is present after one more row when it was before or the row carries it. */
  lemma HasLabelledStep(p: seq<Transaction>, t: Transaction, cs: seq<Category>, k: TxType, name: string)
    ensures HasLabelled(p + [t], cs, k, name) <==> HasLabelled(p, cs, k, name) || Labelled(t, cs, k, name)
  {
    var rows := p + [t];
    if HasLabelled(rows, cs, k, name) && !Labelled(t, cs, k, name) {
      var u :| u in rows && Labelled(u, cs, k, name);
      assert u in p;
    }
    if HasLabelled(p, cs, k, name) {
      var u :| u in p && Labelled(u, cs, k, name);
      assert u in rows;
    }
    assert t in rows;
  }

  /** A row of the type, folded in with `AddTo`: the names present are the labels present. */
  lemma NamesSameType(gs: seq<Group>, p: seq<Transaction>, t: Transaction, cs: seq<Category>, k: TxType)
    requires forall name :: HasGroup(gs, name) <==> HasLabelled(p, cs, k, name)
    requires t.txType == k
    ensures forall name :: HasGroup(AddTo(gs, LabelOf(t, cs), ColorOf(t, cs), t.amount), name) <==> HasLabelled(p + [t], cs, k, name)
  {
    forall name ensures HasGroup(AddTo(gs, LabelOf(t, cs), ColorOf(t, cs), t.amount), name) <==> HasLabelled(p + [t], cs, k, name) {
      AddToHasGroup(gs, LabelOf(t, cs), ColorOf(t, cs), t.amount, name);
      HasLabelledStep(p, t, cs, k, name);
    }
  }

  lemma DescribesSameType(gs: seq<Group>, p: seq<Transaction>, t: Transaction, cs: seq<Category>, k: TxType)
    requires Describes(gs, p, cs, k) && t.txType == k
    ensures Describes(AddTo(gs, LabelOf(t, cs), ColorOf(t, cs), t.amount), p + [t], cs, k)
  {
    AddToEntries(gs, LabelOf(t, cs), ColorOf(t, cs), t.amount);
    forall g | g in AddTo(gs, LabelOf(t, cs), ColorOf(t, cs), t.amount)
      ensures g.amount == LabelledTotal(p + [t], cs, k, g.categoryName)
      ensures FirstColor(p + [t], cs, k, g.categoryName) == Some(g.categoryColor)
    {
      EntrySameType(gs, p, t, cs, k, g);
    }
    NamesSameType(gs, p, t, cs, k);
  }

  /** Entries of `Grouped` in terms of the rows: distinct names, one per label
      of a row of the type, its amount the sum over the rows with that label,
      its colour the colour of the first of them. */
  lemma {:induction false} GroupedEntries(rows: seq<Transaction>, cs: seq<Category>, k: TxType)
    ensures NamesDistinct(Grouped(rows, cs, k))
    ensures forall g :: g in Grouped(rows, cs, k) ==>
      g.amount == LabelledTotal(rows, cs, k, g.categoryName) && FirstColor(rows, cs, k, g.categoryName) == Some(g.categoryColor)
    ensures forall name :: HasGroup(Grouped(rows, cs, k), name) <==> HasLabelled(rows, cs, k, name)
  {
    if rows != [] {
      var p := rows[..|rows| - 1];
      var t := rows[|rows| - 1];
      assert rows == p + [t];
      GroupedEntries(p, cs, k);
      if t.txType != k {
        DescribesOtherType(Grouped(p, cs, k), p, t, cs, k);
      } else {
        DescribesSameType(Grouped(p, cs, k), p, t, cs, k);
      }
    }
  }

  /** The sum of the entries' amounts. */
  function GroupsTotal(gs: seq<Group>): int {
    if gs == [] then 0 else gs[0].amount + GroupsTotal(gs[1..])
  }

  lemma {:induction false} GroupsTotalAppend(gs: seq<Group>, g: Group)
    ensures GroupsTotal(gs + [g]) == GroupsTotal(gs) + g.amount
  {
    if gs != [] {
      assert (gs + [g])[1..] == gs[1..] + [g];
      GroupsTotalAppend(gs[1..], g);
    }
  }

  lemma {:induction false} GroupsTotalUpdate(gs: seq<Group>, i: nat, g: Group)
    requires i < |gs|
    ensures GroupsTotal(gs[i := g]) == GroupsTotal(gs) - gs[i].amount + g.amount
  {
    if i > 0 {
      assert gs[i := g][1..] == gs[1..][i - 1 := g];
      GroupsTotalUpdate(gs[1..], i - 1, g);
    }
  }

  /** One Map round adds the row's amount to the sum of the entries. */
  lemma GroupsTotalAddTo(gs: seq<Group>, name: string, color: string, amount: int)
    ensures GroupsTotal(AddTo(gs, name, color, amount)) == GroupsTotal(gs) + amount
  {
    var at := GroupIndex(gs, name);
    if at < 0 {
      GroupsTotalAppend(gs, Group(name, amount, color));
    } else {
      GroupsTotalUpdate(gs, at, gs[at].(amount := gs[at].amount + amount));
    }
  }

  /** The entries of a type add up to the total of that type over the same rows. */
  lemma {:induction false} GroupedTotal(rows: seq<Transaction>, cs: seq<Category>, k: TxType)
    ensures GroupsTotal(Grouped(rows, cs, k)) == Total(rows, k)
  {
    if rows != [] {
      var p := rows[..|rows| - 1];
      var t := rows[|rows| - 1];
      assert rows == p + [t];
      GroupedTotal(p, cs, k);
      TotalAppend(p, [t], k);
      assert Total([t], k) == if t.txType == k then t.amount else 0;
      if t.txType == k {
        GroupsTotalAddTo(Grouped(p, cs, k), LabelOf(t, cs), ColorOf(t, cs), t.amount);
      }
    }
  }

  /** With no date range, the by-category lists add up to the financial summary's totals. */
  lemma ByCategoryAgreesWithSummary(ts: seq<Transaction>, cs: seq<Category>, userId: int, k: TxType)
    ensures GroupsTotal(Grouped(Select(ts, userId, NoFilters), cs, k))
         == Total(Select(ts, userId, NoFilters), k)
  {
    GroupedTotal(Select(ts, userId, NoFilters), cs, k);
  }
}
