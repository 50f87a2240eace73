/**
 * What the dashboard, `/get_balance_data` and `/get_expense_data` compute from
 * a user's listing: income and expense totals, the balance, the ten most
 * recent rows, and the expense total per category.
 */
module Dashboard {
  import opened Wrappers
  import opened Calendar
  import opened Store
  import opened Sorting
  import opened Query
  import opened Presets

  /** `sum(t['amount'] for t in transactions if t.get('type') == kind)`, as a fold. */
  function KindTotal(rows: seq<Transaction>, kind: Kind): int {
    if |rows| == 0 then 0
    else (if rows[0].kind == kind then rows[0].amount else 0) + KindTotal(rows[1..], kind)
  }

  /** The signed sum: income counts up, expense counts down. */
  function Net(rows: seq<Transaction>): int {
    if |rows| == 0 then 0
    else (if rows[0].kind == Income then rows[0].amount else -rows[0].amount) + Net(rows[1..])
  }

  lemma {:induction false} KindTotalSnoc(rows: seq<Transaction>, t: Transaction, kind: Kind)
    ensures KindTotal(rows + [t], kind) == KindTotal(rows, kind) + (if t.kind == kind then t.amount else 0)
  {
    if |rows| > 0 {
      assert (rows + [t])[1..] == rows[1..] + [t];
      KindTotalSnoc(rows[1..], t, kind);
    }
  }

  /** balance = total income - total expense is the signed sum of all rows (0 for none). */
  lemma {:induction false} BalanceIsNet(rows: seq<Transaction>)
    ensures KindTotal(rows, Income) - KindTotal(rows, Expense) == Net(rows)
  {
    if |rows| > 0 {
      BalanceIsNet(rows[1..]);
    }
  }

  /**
   * Lines 362-364 of the dashboard: two passes summing the Income and the Expense
   * amounts, then their difference.
   */
  method Totals(rows: seq<Transaction>) returns (income: int, expense: int, balance: int)
    ensures income == KindTotal(rows, Income)
    ensures expense == KindTotal(rows, Expense)
    ensures balance == Net(rows)
  {
    income := 0;
    var i := 0;
    while i < |rows|
      invariant 0 <= i <= |rows|
      invariant income == KindTotal(rows[..i], Income)
    {
      assert rows[..i + 1] == rows[..i] + [rows[i]];
      KindTotalSnoc(rows[..i], rows[i], Income);
      if rows[i].kind == Income {
        income := income + rows[i].amount;
      }
      i := i + 1;
    }
    expense := 0;
    i := 0;
    while i < |rows|
      invariant 0 <= i <= |rows|
      invariant expense == KindTotal(rows[..i], Expense)
    {
      assert rows[..i + 1] == rows[..i] + [rows[i]];
      KindTotalSnoc(rows[..i], rows[i], Expense);
      if rows[i].kind == Expense {
        expense := expense + rows[i].amount;
      }
      i := i + 1;
    }
    assert rows[..|rows|] == rows;
    balance := income - expense;
    BalanceIsNet(rows);
  }

  lemma {:induction false} InsertKeepsTotal(o: Order, x: Transaction, ys: seq<Transaction>, kind: Kind)
    ensures KindTotal(Insert(o, x, ys), kind) == KindTotal([x], kind) + KindTotal(ys, kind)
  {
    if |ys| > 0 && Before(o, ys[0], x) {
      InsertKeepsTotal(o, x, ys[1..], kind);
      assert ([ys[0]] + Insert(o, x, ys[1..]))[1..] == Insert(o, x, ys[1..]);
    } else {
      assert ([x] + ys)[1..] == ys;
    }
  }

  lemma {:induction false} SortKeepsTotal(o: Order, xs: seq<Transaction>, kind: Kind)
    ensures KindTotal(Sort(o, xs), kind) == KindTotal(xs, kind)
  {
    if |xs| > 0 {
      SortKeepsTotal(o, xs[1..], kind);
      InsertKeepsTotal(o, xs[0], Sort(o, xs[1..]), kind);
    }
  }

  /** Totals do not depend on the sort mode: any listing sums to the totals of the fetched rows. */
  lemma ArrangeKeepsTotal(sortBy: string, fetched: seq<Transaction>, kind: Kind)
    ensures KindTotal(Arrange(sortBy, fetched), kind) == KindTotal(fetched, kind)
  {
    if ParseSortBy(sortBy).Some? {
      ArrangeRecognised(sortBy, fetched);
      SortKeepsTotal(ParseSortBy(sortBy).value, fetched, kind);
    }
  }

  /** `transactions[:10]`. */
  function FirstTen(rows: seq<Transaction>): (r: seq<Transaction>)
    ensures |r| == if |rows| < 10 then |rows| else 10
    ensures r <= rows
  {
    if |rows| <= 10 then rows else rows[..10]
  }

  datatype View = View(income: int, expense: int, balance: int, recent: seq<Transaction>)

  /** The rows the dashboard lists: the preset's range, or every row, newest first; None on OverflowError. */
  function DashboardListing(db: Db, email: string, filter: string, today: Date): Option<seq<Transaction>>
    requires Valid(today)
  {
    match PresetRange(filter, today)
    case AllDates => Some(GetTransactions(db, email, "date_desc"))
    case Dates(start, end) => Some(GetTransactionsByDate(db, email, start, end, "date_desc"))
    case Overflow => None
  }

  /**
   * `dashboard`: totals over the whole listing for the filter, at most ten rows
   * shown, and those are the first ten of the newest-first listing (all of it when shorter).
   */
  function DashboardView(db: Db, email: string, filter: string, today: Date): (r: Option<View>)
    requires Valid(today)
    ensures r.Some? <==> !PresetRange(filter, today).Overflow?
    ensures r.Some? ==>
              var listing := DashboardListing(db, email, filter, today).value;
              && r.value.income == KindTotal(listing, Income)
              && r.value.expense == KindTotal(listing, Expense)
              && r.value.balance == r.value.income - r.value.expense
              && r.value.balance == Net(listing)
              && |r.value.recent| <= 10 && r.value.recent <= listing
              && |r.value.recent| == (if |listing| < 10 then |listing| else 10)
              && Sorted(Order(ByDate, true), listing)
              && forall t :: t in listing ==> t in db.rows && t.email == email
  {
    match DashboardListing(db, email, filter, today)
    case None => None
    case Some(listing) =>
      var income := KindTotal(listing, Income);
      var expense := KindTotal(listing, Expense);
      BalanceIsNet(listing);
      ParseSortByNames();
      Some(View(income, expense, income - expense, FirstTen(listing)))
  }

  /** `get_balance_data`: the balance over all the user's rows, whatever their order. */
  function BalanceData(db: Db, email: string): (r: int)
    ensures r == Net(Owned(db.rows, email))
  {
    var listing := GetTransactions(db, email, "date_desc");
    ArrangeKeepsTotal("date_desc", Owned(db.rows, email), Income);
    ArrangeKeepsTotal("date_desc", Owned(db.rows, email), Expense);
    BalanceIsNet(Owned(db.rows, email));
    KindTotal(listing, Income) - KindTotal(listing, Expense)
  }

  lemma {:induction false} AllZeroTotal(rows: seq<Transaction>, kind: Kind)
    requires forall t :: t in rows ==> t.amount == 0
    ensures KindTotal(rows, kind) == 0
  {
    if |rows| > 0 {
      assert rows[0] in rows;
      AllZeroTotal(rows[1..], kind);
    }
  }

  /** After the monthly job every listing totals to zero income, zero expense, zero balance. */
  lemma ZeroedTotals(db: Db, email: string, sortBy: string)
    ensures var listing := GetTransactions(ZeroAllAmounts(db), email, sortBy);
            KindTotal(listing, Income) == 0 && KindTotal(listing, Expense) == 0 && Net(listing) == 0
  {
    var z := ZeroAllAmounts(db);
    var listing := GetTransactions(z, email, sortBy);
    forall t | t in listing ensures t.amount == 0 {
      var i :| 0 <= i < |z.rows| && z.rows[i] == t;
    }
    AllZeroTotal(listing, Income);
    AllZeroTotal(listing, Expense);
    BalanceIsNet(listing);
  }

  // ---------------------------------------------------------------------------
  // `get_expense_data`: per-category expense totals in first-appearance order

  /** The categories of the Expense rows, each once, in order of first appearance (dict key order). */
  function Categories(rows: seq<Transaction>): seq<string> {
    if |rows| == 0 then []
    else
      var known := Categories(rows[..|rows| - 1]);
      var t := rows[|rows| - 1];
      if t.kind == Expense && t.category !in known then known + [t.category] else known
  }

  /** The summed amount of the Expense rows with category `c`. */
  function CategoryTotal(rows: seq<Transaction>, c: string): int {
    if |rows| == 0 then 0
    else
      var t := rows[|rows| - 1];
      CategoryTotal(rows[..|rows| - 1], c) + (if t.kind == Expense && t.category == c then t.amount else 0)
  }

  predicate IsExpenseOf(t: Transaction, c: string) {
    t.kind == Expense && t.category == c
  }

  predicate Distinct(s: seq<string>) {
    forall i, j :: 0 <= i < j < |s| ==> s[i] != s[j]
  }

  function Sum(values: seq<int>): int {
    if |values| == 0 then 0 else Sum(values[..|values| - 1]) + values[|values| - 1]
  }

  lemma {:induction false} SumUpdate(values: seq<int>, k: nat, a: int)
    requires k < |values|
    ensures Sum(values[k := values[k] + a]) == Sum(values) + a
  {
    var n := |values| - 1;
    if k < n {
      assert values[k := values[k] + a][..n] == values[..n][k := values[k] + a];
      SumUpdate(values[..n], k, a);
    } else {
      assert values[k := values[k] + a][..n] == values[..n];
    }
  }

  /** Each category is listed once, and exactly the categories some Expense row carries are listed. */
  lemma {:induction false} CategoriesFacts(rows: seq<Transaction>)
    ensures Distinct(Categories(rows))
    ensures forall c :: c in Categories(rows) <==> exists t :: t in rows && IsExpenseOf(t, c)
  {
    if |rows| > 0 {
      var prefix := rows[..|rows| - 1];
      CategoriesFacts(prefix);
      var last := rows[|rows| - 1];
      assert rows == prefix + [last];
      forall c ensures c in Categories(rows) <==> exists t :: t in rows && IsExpenseOf(t, c) {
        if c in Categories(rows) && !(c in Categories(prefix)) {
          assert IsExpenseOf(last, c) && last in rows;
        }
        if c in Categories(prefix) {
          var t :| t in prefix && IsExpenseOf(t, c);
          assert t in rows;
        }
        if exists t :: t in rows && IsExpenseOf(t, c) {
          var t :| t in rows && IsExpenseOf(t, c);
          if t != last {
            assert t in prefix;
          }
        }
      }
    }
  }

  lemma {:induction false} CategoryTotalAbsent(rows: seq<Transaction>, c: string)
    requires forall t :: t in rows ==> !IsExpenseOf(t, c)
    ensures CategoryTotal(rows, c) == 0
  {
    if |rows| > 0 {
      assert rows[|rows| - 1] in rows;
      assert forall t :: t in rows[..|rows| - 1] ==> t in rows;
      CategoryTotalAbsent(rows[..|rows| - 1], c);
    }
  }

  /** `labels` and `values` are the per-category expense totals of `rows`. */
  predicate Tallies(rows: seq<Transaction>, labels: seq<string>, values: seq<int>) {
    && labels == Categories(rows)
    && |values| == |labels|
    && (forall i :: 0 <= i < |labels| ==> values[i] == CategoryTotal(rows, labels[i]))
    && Sum(values) == KindTotal(rows, Expense)
  }

  /** A row that is not an Expense changes no tally. */
  lemma TallyOther(rows: seq<Transaction>, t: Transaction, labels: seq<string>, values: seq<int>)
    requires Tallies(rows, labels, values) && t.kind != Expense
    ensures Tallies(rows + [t], labels, values)
  {
    var r := rows + [t];
    assert r[..|r| - 1] == rows;
    KindTotalSnoc(rows, t, Expense);
  }

  /** An Expense row of a listed category adds its amount to that category's value. */
  lemma TallyKnown(rows: seq<Transaction>, t: Transaction, labels: seq<string>, values: seq<int>, k: nat)
    requires Tallies(rows, labels, values) && t.kind == Expense
    requires k < |labels| && labels[k] == t.category
    ensures Tallies(rows + [t], labels, values[k := values[k] + t.amount])
  {
    var r := rows + [t];
    assert r[..|r| - 1] == rows;
    KindTotalSnoc(rows, t, Expense);
    SumUpdate(values, k, t.amount);
    CategoriesFacts(rows);
  }

  /** An Expense row of a new category appends the category with its amount. */
  lemma TallyNew(rows: seq<Transaction>, t: Transaction, labels: seq<string>, values: seq<int>)
    requires Tallies(rows, labels, values) && t.kind == Expense
    requires t.category !in labels
    ensures Tallies(rows + [t], labels + [t.category], values + [t.amount])
  {
    var r := rows + [t];
    assert r[..|r| - 1] == rows;
    KindTotalSnoc(rows, t, Expense);
    CategoriesFacts(rows);
    assert forall u :: u in rows ==> !IsExpenseOf(u, t.category);
    CategoryTotalAbsent(rows, t.category);
    assert (values + [t.amount])[..|values|] == values;
  }

  /**
   * The loop of `get_expense_data`: `labels` are the Expense categories in
   * first-appearance order, `values[i]` is the total of category `labels[i]`,
   * and the values add up to the total expense.
   */
  method ExpenseBreakdown(rows: seq<Transaction>) returns (labels: seq<string>, values: seq<int>)
    ensures labels == Categories(rows)
    ensures |values| == |labels|
    ensures forall i :: 0 <= i < |labels| ==> values[i] == CategoryTotal(rows, labels[i])
    ensures Sum(values) == KindTotal(rows, Expense)
  {
    labels := [];
    values := [];
    var n := 0;
    while n < |rows|
      invariant 0 <= n <= |rows|
      invariant Tallies(rows[..n], labels, values)
    {
      var t := rows[n];
      assert rows[..n + 1] == rows[..n] + [t];
      if t.kind != Expense {
        TallyOther(rows[..n], t, labels, values);
      } else {
        var k := IndexOf(labels, t.category);
        if k < |labels| {
          TallyKnown(rows[..n], t, labels, values, k);
          values := values[k := values[k] + t.amount];
        } else {
          TallyNew(rows[..n], t, labels, values);
          labels := labels + [t.category];
          values := values + [t.amount];
        }
      }
      n := n + 1;
    }
    assert rows[..n] == rows;
  }

  /** Position of the first Expense row with category `c`, or |rows| when there is none. */
  function FirstExpenseIndex(rows: seq<Transaction>, c: string): (r: nat)
    ensures r <= |rows|
    ensures r < |rows| ==> IsExpenseOf(rows[r], c)
    ensures forall k :: 0 <= k < r ==> !IsExpenseOf(rows[k], c)
  {
    if |rows| == 0 then 0
    else
      var prefix := rows[..|rows| - 1];
      var p := FirstExpenseIndex(prefix, c);
      if p < |prefix| then p
      else if IsExpenseOf(rows[|rows| - 1], c) then |prefix|
      else |rows|
  }

  /** `labels` follow the order in which their first Expense row appears in the listing. */
  lemma {:induction false} CategoriesInFirstAppearanceOrder(rows: seq<Transaction>)
    ensures forall i, j :: 0 <= i < j < |Categories(rows)| ==>
              FirstExpenseIndex(rows, Categories(rows)[i]) < FirstExpenseIndex(rows, Categories(rows)[j]) < |rows|
  {
    if |rows| > 0 {
      var prefix := rows[..|rows| - 1];
      var cats := Categories(rows);
      var earlier := Categories(prefix);
      CategoriesInFirstAppearanceOrder(prefix);
      CategoriesFacts(prefix);
      forall c | c in earlier ensures FirstExpenseIndex(rows, c) == FirstExpenseIndex(prefix, c) < |prefix| {
        var t :| t in prefix && IsExpenseOf(t, c);
        var k :| 0 <= k < |prefix| && prefix[k] == t;
      }
      var last := rows[|rows| - 1];
      if last.kind == Expense && last.category !in earlier {
        var c := last.category;
        assert cats == earlier + [c];
        assert FirstExpenseIndex(prefix, c) == |prefix|;
        assert FirstExpenseIndex(rows, c) == |prefix|;
        forall i, j | 0 <= i < j < |cats|
          ensures FirstExpenseIndex(rows, cats[i]) < FirstExpenseIndex(rows, cats[j]) < |rows|
        {
          assert cats[i] == earlier[i] && earlier[i] in earlier;
          if j < |earlier| {
            assert cats[j] == earlier[j] && earlier[j] in earlier;
          }
        }
      } else {
        assert cats == earlier;
        forall i, j | 0 <= i < j < |cats|
          ensures FirstExpenseIndex(rows, cats[i]) < FirstExpenseIndex(rows, cats[j]) < |rows|
        {
          assert cats[i] == earlier[i] && cats[j] == earlier[j];
          assert earlier[i] in earlier && earlier[j] in earlier;
          assert FirstExpenseIndex(prefix, earlier[i]) < FirstExpenseIndex(prefix, earlier[j]);
        }
      }
    }
  }

  function IndexOf(s: seq<string>, x: string): (k: nat)
    ensures k <= |s|
    ensures k < |s| ==> s[k] == x
    ensures k == |s| ==> x !in s
  {
    if |s| == 0 then 0
    else if s[0] == x then 0
    else 1 + IndexOf(s[1..], x)
  }

  /**
   * Alice records an Expense 'Food' of 50.00 on 2024-03-01 remarked 'lunch', then
   * an Income 'Salary' of 1000.00 on 2024-03-02 without remark: `amount_desc`
   * lists Salary before Food, and the balance is 950.00.
   */
  lemma AliceScenario()
    ensures var alice := "alice@example.com";
            var db1 := AddTransaction(Empty, alice, Expense, "Food", 5000, Date(2024, 3, 1), Some("lunch")).0;
            var db2 := AddTransaction(db1, alice, Income, "Salary", 100000, Date(2024, 3, 2), None).0;
            var food := Transaction(1, alice, Expense, "Food", 5000, Date(2024, 3, 1), Some("lunch"));
            var salary := Transaction(2, alice, Income, "Salary", 100000, Date(2024, 3, 2), None);
            && GetTransactions(db2, alice, "amount_desc") == [salary, food]
            && BalanceData(db2, alice) == 95000
  {
    var alice := "alice@example.com";
    var food := Transaction(1, alice, Expense, "Food", 5000, Date(2024, 3, 1), Some("lunch"));
    var salary := Transaction(2, alice, Income, "Salary", 100000, Date(2024, 3, 2), None);
    AliceStore(alice, food, salary);
    AliceListing(alice, food, salary);
    AliceBalance(food, salary);
  }

  lemma AliceStore(alice: string, food: Transaction, salary: Transaction)
    requires food == Transaction(1, alice, Expense, "Food", 5000, Date(2024, 3, 1), Some("lunch"))
    requires salary == Transaction(2, alice, Income, "Salary", 100000, Date(2024, 3, 2), None)
    ensures var db1 := AddTransaction(Empty, alice, Expense, "Food", 5000, Date(2024, 3, 1), Some("lunch")).0;
            AddTransaction(db1, alice, Income, "Salary", 100000, Date(2024, 3, 2), None).0 == Db([], [food, salary], 3)
  {
    assert AddTransaction(Empty, alice, Expense, "Food", 5000, Date(2024, 3, 1), Some("lunch")).0 == Db([], [food], 2);
  }

  lemma AliceBalance(food: Transaction, salary: Transaction)
    requires food.kind == Expense && food.amount == 5000 && salary.kind == Income && salary.amount == 100000
    ensures Net([food, salary]) == 95000
  {
    assert [food, salary][1..] == [salary] && [salary][1..] == [];
    assert Net([salary]) == 100000;
  }

  lemma AliceListing(alice: string, food: Transaction, salary: Transaction)
    requires food == Transaction(1, alice, Expense, "Food", 5000, Date(2024, 3, 1), Some("lunch"))
    requires salary == Transaction(2, alice, Income, "Salary", 100000, Date(2024, 3, 2), None)
    ensures Owned([food, salary], alice) == [food, salary]
    ensures GetTransactions(Db([], [food, salary], 3), alice, "amount_desc") == [salary, food]
  {
    assert Owned([food, salary], alice) == [food, salary] by {
      SelectKeepsAll([food, salary], (t: Transaction) => t.email == alice);
    }
    assert ParseSortBy("amount_desc") == Some(Order(ByAmount, true)) by {
      ParseSortByNames();
    }
    ArrangeRecognised("amount_desc", [food, salary]);
    AmountDescPair(food, salary);
  }

  lemma AmountDescPair(food: Transaction, salary: Transaction)
    requires food.amount < salary.amount
    ensures Sort(Order(ByAmount, true), [food, salary]) == [salary, food]
  {
    var o := Order(ByAmount, true);
    assert [food, salary][1..] == [salary];
    assert Sort(o, [salary]) == [salary];
    assert Before(o, salary, food);
  }
}
