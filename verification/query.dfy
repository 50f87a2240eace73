/**
 * `get_transactions` and `get_transactions_by_date`: a WHERE-filtered fetch in
 * table order followed by the `sort_by` dispatch. The repository carries two
 * behaviourally identical copies of each (one in the database layer, which also
 * initialises an unused empty list first, and one in the web module, which the
 * routes call); both are this one definition.
 */
module Query {
  import opened Wrappers
  import opened Calendar
  import opened Store
  import opened Sorting

  /** The ten recognised `sort_by` values; anything else leaves the fetch order. */
  function ParseSortBy(s: string): Option<Order> {
    if s == "date_asc" then Some(Order(ByDate, false))
    else if s == "date_desc" then Some(Order(ByDate, true))
    else if s == "category_asc" then Some(Order(ByCategory, false))
    else if s == "category_desc" then Some(Order(ByCategory, true))
    else if s == "remark_asc" then Some(Order(ByRemark, false))
    else if s == "remark_desc" then Some(Order(ByRemark, true))
    else if s == "type_asc" then Some(Order(ByType, false))
    else if s == "type_desc" then Some(Order(ByType, true))
    else if s == "amount_asc" then Some(Order(ByAmount, false))
    else if s == "amount_desc" then Some(Order(ByAmount, true))
    else None
  }

  /**
   * The if/elif chain over `sort_by`: a permutation of the fetched rows; for a
   * recognised mode sorted and stable, otherwise exactly the fetch order.
   */
  function Arrange(sortBy: string, fetched: seq<Transaction>): (r: seq<Transaction>)
    ensures multiset(r) == multiset(fetched)
    ensures forall t :: t in r <==> t in fetched
    ensures ParseSortBy(sortBy).None? ==> r == fetched
    ensures ParseSortBy(sortBy).Some? ==>
              var o := ParseSortBy(sortBy).value; Sorted(o, r) && Stable(o.field, fetched, r)
  {
    var r := match ParseSortBy(sortBy)
      case None => fetched
      case Some(o) => Sort(o, fetched);
    assert forall t :: t in r <==> t in fetched by {
      forall t ensures t in r <==> t in fetched {
        assert t in r <==> t in multiset(r);
        assert t in fetched <==> t in multiset(fetched);
      }
    }
    r
  }

  /** Every recognised name selects the field and direction it spells. */
  lemma ParseSortByNames()
    ensures ParseSortBy("date_asc") == Some(Order(ByDate, false))
    ensures ParseSortBy("date_desc") == Some(Order(ByDate, true))
    ensures ParseSortBy("category_asc") == Some(Order(ByCategory, false))
    ensures ParseSortBy("category_desc") == Some(Order(ByCategory, true))
    ensures ParseSortBy("remark_asc") == Some(Order(ByRemark, false))
    ensures ParseSortBy("remark_desc") == Some(Order(ByRemark, true))
    ensures ParseSortBy("type_asc") == Some(Order(ByType, false))
    ensures ParseSortBy("type_desc") == Some(Order(ByType, true))
    ensures ParseSortBy("amount_asc") == Some(Order(ByAmount, false))
    ensures ParseSortBy("amount_desc") == Some(Order(ByAmount, true))
    ensures ParseSortBy("") == None && ParseSortBy("DATE_ASC") == None
  {
  }

  /** The column a field sorts on, as the mode names spell it. */
  function FieldName(f: Field): string {
    match f
    case ByDate => "date"
    case ByCategory => "category"
    case ByRemark => "remark"
    case ByType => "type"
    case ByAmount => "amount"
  }

  /** A mode name: the column, then `_asc` or `_desc`. */
  function ModeName(o: Order): string {
    FieldName(o.field) + (if o.descending then "_desc" else "_asc")
  }

  /** `ParseSortBy` accepts exactly the spelled-out mode names, each for the order it spells. */
  lemma ParseSortByModeName(s: string, o: Order)
    ensures ParseSortBy(s) == Some(o) <==> s == ModeName(o)
  {
    ParseModeName(o);
    if ParseSortBy(s) == Some(o) {
      ParsedIsModeName(s);
    }
  }

  lemma ParseModeName(o: Order)
    ensures ParseSortBy(ModeName(o)) == Some(o)
  {
    match o.field
    case ByDate => assert ModeName(o) == if o.descending then "date_desc" else "date_asc";
    case ByCategory => assert ModeName(o) == if o.descending then "category_desc" else "category_asc";
    case ByRemark => assert ModeName(o) == if o.descending then "remark_desc" else "remark_asc";
    case ByType => assert ModeName(o) == if o.descending then "type_desc" else "type_asc";
    case ByAmount => assert ModeName(o) == if o.descending then "amount_desc" else "amount_asc";
  }

  lemma ParsedIsModeName(s: string)
    requires ParseSortBy(s).Some?
    ensures s == ModeName(ParseSortBy(s).value)
  {
    ParseModeName(ParseSortBy(s).value);
  }

  /** A name no order spells selects nothing. */
  lemma ParseSortByUnknown(s: string)
    ensures ParseSortBy(s).None? <==> forall o :: s != ModeName(o)
  {
    if ParseSortBy(s).Some? {
      ParseSortByModeName(s, ParseSortBy(s).value);
    } else {
      forall o ensures s != ModeName(o) {
        ParseSortByModeName(s, o);
      }
    }
  }

  lemma ArrangeRecognised(sortBy: string, fetched: seq<Transaction>)
    requires ParseSortBy(sortBy).Some?
    ensures Arrange(sortBy, fetched) == Sort(ParseSortBy(sortBy).value, fetched)
  {
  }

  /**
   * For a recognised mode the arrangement is determined: a sequence is the
   * result exactly when it is sorted and keeps the fetch order among equal keys.
   */
  lemma ArrangeIsTheStableSort(sortBy: string, fetched: seq<Transaction>, b: seq<Transaction>)
    requires ParseSortBy(sortBy).Some?
    ensures var o := ParseSortBy(sortBy).value;
            Arrange(sortBy, fetched) == b <==> Sorted(o, b) && Stable(o.field, fetched, b)
  {
    var o := ParseSortBy(sortBy).value;
    var a := Arrange(sortBy, fetched);
    if Sorted(o, b) && Stable(o.field, fetched, b) {
      assert forall k :: WithKey(o.field, a, k) == WithKey(o.field, b, k) by {
        forall k ensures WithKey(o.field, a, k) == WithKey(o.field, b, k) {
          assert WithKey(o.field, a, k) == WithKey(o.field, fetched, k);
          assert WithKey(o.field, b, k) == WithKey(o.field, fetched, k);
        }
      }
      SortUnique(o, a, b);
    }
  }

  /**
   * `get_transactions(Email, sort_by)`: exactly the rows owned by `email`, each
   * as often as stored, arranged by `sort_by`.
   */
  function GetTransactions(db: Db, email: string, sortBy: string): (r: seq<Transaction>)
    ensures forall t :: t in r <==> t in db.rows && t.email == email
    ensures multiset(r) == multiset(Owned(db.rows, email))
    ensures ParseSortBy(sortBy).None? ==> r == Owned(db.rows, email)
    ensures ParseSortBy(sortBy).Some? ==> Sorted(ParseSortBy(sortBy).value, r)
    ensures ParseSortBy(sortBy).Some? ==> Stable(ParseSortBy(sortBy).value.field, Owned(db.rows, email), r)
  {
    Arrange(sortBy, Owned(db.rows, email))
  }

  /** `date BETWEEN start AND end`: both ends inclusive. */
  predicate Between(d: Date, start: Date, end: Date) {
    LessEq(start, d) && LessEq(d, end)
  }

  function OwnedBetween(rows: seq<Transaction>, email: string, start: Date, end: Date): (r: seq<Transaction>)
    ensures forall t :: t in r <==> t in rows && t.email == email && Between(t.date, start, end)
  {
    Select(rows, (t: Transaction) => t.email == email && Between(t.date, start, end))
  }

  /**
   * `get_transactions_by_date(Email, start_date, end_date, sort_by)`: exactly
   * the rows owned by `email` dated from `start` to `end` inclusive, arranged by
   * `sort_by`.
   */
  function GetTransactionsByDate(db: Db, email: string, start: Date, end: Date, sortBy: string): (r: seq<Transaction>)
    ensures forall t :: t in r <==> t in db.rows && t.email == email && Between(t.date, start, end)
    ensures multiset(r) == multiset(OwnedBetween(db.rows, email, start, end))
    ensures ParseSortBy(sortBy).None? ==> r == OwnedBetween(db.rows, email, start, end)
    ensures ParseSortBy(sortBy).Some? ==> Sorted(ParseSortBy(sortBy).value, r)
    ensures ParseSortBy(sortBy).Some? ==> Stable(ParseSortBy(sortBy).value.field, OwnedBetween(db.rows, email, start, end), r)
  {
    Arrange(sortBy, OwnedBetween(db.rows, email, start, end))
  }

  /** A one-day range returns exactly the owner's rows of that day. */
  lemma SingleDayRange(db: Db, email: string, day: Date, sortBy: string)
    ensures forall t :: t in GetTransactionsByDate(db, email, day, day, sortBy) <==>
              t in db.rows && t.email == email && t.date == day
  {
  }

  /** A listing in a recognised mode is already in that mode's order: re-sorting it changes nothing. */
  lemma ListingIsFixedPoint(db: Db, email: string, sortBy: string)
    requires ParseSortBy(sortBy).Some?
    ensures Sort(ParseSortBy(sortBy).value, GetTransactions(db, email, sortBy)) == GetTransactions(db, email, sortBy)
  {
    SortIdempotent(ParseSortBy(sortBy).value, GetTransactions(db, email, sortBy));
  }

  /** After `reset_dashboard`, the user's listing is empty and every other user's is unchanged. */
  lemma ResetDashboardIsolation(db: Db, email: string, other: string, sortBy: string)
    requires other != email
    ensures GetTransactions(DeleteAllOf(db, email), email, sortBy) == []
    ensures GetTransactions(DeleteAllOf(db, email), other, sortBy) == GetTransactions(db, other, sortBy)
  {
  }

  lemma RemarkAscSort(n: Transaction, z: Transaction, a: Transaction)
    requires n.remark == None && z.remark == Some("zebra") && a.remark == Some("apple")
    ensures Sort(Order(ByRemark, false), [n, z, a]) == [n, a, z]
  {
    var o := Order(ByRemark, false);
    assert [n, z, a][1..] == [z, a];
    RemarkPairSort(z, a);
    assert !Before(o, a, n) by {
      assert Text.Lower("") == "";
      assert Text.Lower("apple") == "apple";
      assert Text.StrLess("", "apple");
    }
    assert Insert(o, n, [a, z]) == [n, a, z];
  }

  lemma RemarkPairSort(z: Transaction, a: Transaction)
    requires z.remark == Some("zebra") && a.remark == Some("apple")
    ensures Sort(Order(ByRemark, false), [z, a]) == [a, z]
  {
    var o := Order(ByRemark, false);
    assert [z, a][1..] == [a];
    assert Sort(o, [a]) == [a];
    assert Before(o, a, z) by {
      assert Text.Lower("zebra") == "zebra" && Text.Lower("apple") == "apple";
      assert Text.StrLess("apple", "zebra");
    }
    assert Insert(o, z, [a]) == [a, z];
  }

  /** `remark_asc` on remarks [None, "zebra", "apple"] puts the missing remark first, as ''. */
  lemma RemarkAscScenario(n: Transaction, z: Transaction, a: Transaction)
    requires n.remark == None && z.remark == Some("zebra") && a.remark == Some("apple")
    ensures Arrange("remark_asc", [n, z, a]) == [n, a, z]
  {
    ParseSortByNames();
    ArrangeRecognised("remark_asc", [n, z, a]);
    RemarkAscSort(n, z, a);
  }
}
