/**
 * The ten `sort_by` modes of the transaction listings. Python's `list.sort` is
 * stable, and `reverse=True` also keeps rows with equal keys in fetch order, so
 * each mode is a stable sort by one key in one direction. The sort here is an
 * insertion sort; `SortUnique` shows that any stable sort (Timsort included)
 * gives the same list.
 */
module Sorting {
  import opened Wrappers
  import opened Text
  import Calendar
  import opened Store

  datatype Field = ByDate | ByCategory | ByRemark | ByType | ByAmount

  datatype Order = Order(field: Field, descending: bool)

  /** The value a `key=` lambda computes; each field always produces the same constructor. */
  datatype Key = DateKey(date: Calendar.Date) | TextKey(text: string) | AmountKey(cents: int)

  /**
   * `x['date']`, `x['category'].lower()`, `x['remark'].lower() if x['remark'] else ''`,
   * `x['type'].lower()`, `float(x['amount'])` (order-preserving on cents).
   */
  function KeyOf(f: Field, t: Transaction): Key {
    match f
    case ByDate => DateKey(t.date)
    case ByCategory => TextKey(Lower(t.category))
    case ByRemark => TextKey(Lower(t.remark.GetOr("")))
    case ByType => TextKey(Lower(KindName(t.kind)))
    case ByAmount => AmountKey(t.amount)
  }

  predicate KeyLess(a: Key, b: Key) {
    match (a, b)
    case (DateKey(x), DateKey(y)) => Calendar.Less(x, y)
    case (TextKey(x), TextKey(y)) => StrLess(x, y)
    case (AmountKey(x), AmountKey(y)) => x < y
    case _ => false
  }

  predicate KeyLessEq(a: Key, b: Key) {
    a == b || KeyLess(a, b)
  }

  /** `a` must be placed before `b`: strictly smaller key ascending, strictly larger descending. */
  predicate Before(o: Order, a: Transaction, b: Transaction) {
    if o.descending then KeyLess(KeyOf(o.field, b), KeyOf(o.field, a))
    else KeyLess(KeyOf(o.field, a), KeyOf(o.field, b))
  }

  /** No row is placed before an earlier one. */
  predicate Sorted(o: Order, s: seq<Transaction>) {
    forall i, j :: 0 <= i < j < |s| ==> !Before(o, s[j], s[i])
  }

  /** The rows whose key under `f` is `k`, in their order in `s`. */
  function WithKey(f: Field, s: seq<Transaction>, k: Key): seq<Transaction> {
    if |s| == 0 then []
    else (if KeyOf(f, s[0]) == k then [s[0]] else []) + WithKey(f, s[1..], k)
  }

  /** Stability: for every key, the rows carrying it appear in the same relative order. */
  ghost predicate Stable(f: Field, input: seq<Transaction>, output: seq<Transaction>) {
    forall k :: WithKey(f, output, k) == WithKey(f, input, k)
  }

  // ---------------------------------------------------------------------------
  // The key order is a strict total order on the keys one field produces

  lemma KeyLessIrreflexive(a: Key)
    ensures !KeyLess(a, a)
  {
    if a.TextKey? { StrLessIrreflexive(a.text); }
  }

  lemma KeyLessTransitive(a: Key, b: Key, c: Key)
    requires KeyLess(a, b) && KeyLess(b, c)
    ensures KeyLess(a, c)
  {
    if a.TextKey? { StrLessTransitive(a.text, b.text, c.text); }
  }

  lemma KeyLessTotal(f: Field, a: Transaction, b: Transaction)
    ensures var (ka, kb) := (KeyOf(f, a), KeyOf(f, b));
            ka == kb || KeyLess(ka, kb) || KeyLess(kb, ka)
  {
    var (ka, kb) := (KeyOf(f, a), KeyOf(f, b));
    if ka.TextKey? { StrLessTotal(ka.text, kb.text); }
  }

  lemma BeforeIrreflexive(o: Order, a: Transaction)
    ensures !Before(o, a, a)
  {
    KeyLessIrreflexive(KeyOf(o.field, a));
  }

  lemma BeforeTransitive(o: Order, a: Transaction, b: Transaction, c: Transaction)
    requires Before(o, a, b) && Before(o, b, c)
    ensures Before(o, a, c)
  {
    if o.descending {
      KeyLessTransitive(KeyOf(o.field, c), KeyOf(o.field, b), KeyOf(o.field, a));
    } else {
      KeyLessTransitive(KeyOf(o.field, a), KeyOf(o.field, b), KeyOf(o.field, c));
    }
  }

  /** Two rows neither of which goes first carry the same key. */
  lemma BeforeTotal(o: Order, a: Transaction, b: Transaction)
    ensures Before(o, a, b) || Before(o, b, a) || KeyOf(o.field, a) == KeyOf(o.field, b)
  {
    KeyLessTotal(o.field, a, b);
  }

  lemma BeforeSameKey(o: Order, a: Transaction, b: Transaction, c: Transaction)
    requires KeyOf(o.field, a) == KeyOf(o.field, b)
    ensures Before(o, a, c) == Before(o, b, c) && Before(o, c, a) == Before(o, c, b)
  {
  }

  /** If neither `b` before `a` nor `c` before `b`, then not `c` before `a`. */
  lemma NotBeforeTransitive(o: Order, a: Transaction, b: Transaction, c: Transaction)
    requires !Before(o, b, a) && !Before(o, c, b)
    ensures !Before(o, c, a)
  {
    BeforeTotal(o, a, b);
    if Before(o, a, b) {
      if Before(o, c, a) { BeforeTransitive(o, c, a, b); }
    }
  }

  // ---------------------------------------------------------------------------
  // Insertion sort

  /** Puts `x` in front of the first row that does not have to precede it. */
  function Insert(o: Order, x: Transaction, ys: seq<Transaction>): seq<Transaction> {
    if |ys| == 0 || !Before(o, ys[0], x) then [x] + ys
    else [ys[0]] + Insert(o, x, ys[1..])
  }

  lemma {:induction false} InsertPermutes(o: Order, x: Transaction, ys: seq<Transaction>)
    ensures multiset(Insert(o, x, ys)) == multiset(ys) + multiset{x}
  {
    if |ys| > 0 && Before(o, ys[0], x) {
      InsertPermutes(o, x, ys[1..]);
      assert ys == [ys[0]] + ys[1..];
    }
  }

  lemma {:induction false} InsertSorted(o: Order, x: Transaction, ys: seq<Transaction>)
    requires Sorted(o, ys)
    ensures Sorted(o, Insert(o, x, ys))
  {
    var r := Insert(o, x, ys);
    if |ys| == 0 {
    } else if !Before(o, ys[0], x) {
      forall j | 0 < j < |r| ensures !Before(o, r[j], r[0]) {
        assert r[j] == ys[j - 1];
        if j > 1 {
          NotBeforeTransitive(o, x, ys[0], ys[j - 1]);
        }
      }
    } else {
      InsertSorted(o, x, ys[1..]);
      InsertPermutes(o, x, ys[1..]);
      var rest := Insert(o, x, ys[1..]);
      forall j | 0 < j < |r| ensures !Before(o, r[j], ys[0]) {
        assert r[j] == rest[j - 1] && r[j] in multiset(rest);
        assert r[j] == x || r[j] in ys[1..];
        if r[j] == x {
          if Before(o, x, ys[0]) { BeforeTransitive(o, x, ys[0], x); BeforeIrreflexive(o, x); }
        } else {
          var k :| 0 <= k < |ys[1..]| && ys[1..][k] == r[j];
          assert ys[k + 1] == r[j];
        }
      }
    }
  }

  /** Filtering a list with one more row in front. */
  lemma WithKeyCons(f: Field, t: Transaction, s: seq<Transaction>, k: Key)
    ensures WithKey(f, [t] + s, k) == (if KeyOf(f, t) == k then [t] else []) + WithKey(f, s, k)
  {
    assert ([t] + s)[1..] == s;
  }

  lemma {:induction false} InsertWithKey(o: Order, x: Transaction, ys: seq<Transaction>, k: Key)
    ensures WithKey(o.field, Insert(o, x, ys), k)
         == (if KeyOf(o.field, x) == k then [x] else []) + WithKey(o.field, ys, k)
  {
    if |ys| == 0 || !Before(o, ys[0], x) {
      WithKeyCons(o.field, x, ys, k);
    } else {
      var y := ys[0];
      var hx := if KeyOf(o.field, x) == k then [x] else [];
      var hy := if KeyOf(o.field, y) == k then [y] else [];
      var rest := WithKey(o.field, ys[1..], k);
      InsertWithKey(o, x, ys[1..], k);
      assert Insert(o, x, ys) == [y] + Insert(o, x, ys[1..]);
      WithKeyCons(o.field, y, Insert(o, x, ys[1..]), k);
      assert WithKey(o.field, ys, k) == hy + rest;
      if hx != [] && hy != [] {
        BeforeSameKey(o, y, x, x);
        BeforeIrreflexive(o, x);
        assert false;
      }
      assert hy + (hx + rest) == hx + (hy + rest);
    }
  }

  /**
   * `transactions.sort(key=..., reverse=...)`: a permutation of the input,
   * ordered by the key in the mode's direction, and stable — for every key, the
   * rows carrying it keep their fetch order, in descending modes too.
   */
  function Sort(o: Order, xs: seq<Transaction>): (r: seq<Transaction>)
    ensures multiset(r) == multiset(xs)
    ensures Sorted(o, r)
    ensures Stable(o.field, xs, r)
  {
    if |xs| == 0 then []
    else
      var rest := Sort(o, xs[1..]);
      assert xs == [xs[0]] + xs[1..];
      InsertSorted(o, xs[0], rest);
      InsertPermutes(o, xs[0], rest);
      assert Stable(o.field, xs, Insert(o, xs[0], rest)) by {
        forall k { InsertWithKey(o, xs[0], rest, k); }
      }
      Insert(o, xs[0], rest)
  }

  /** Ascending modes order by non-decreasing key, descending modes by non-increasing key. */
  lemma SortedMeaning(o: Order, s: seq<Transaction>)
    requires Sorted(o, s)
    ensures forall i, j :: 0 <= i < j < |s| ==>
              if o.descending then KeyLessEq(KeyOf(o.field, s[j]), KeyOf(o.field, s[i]))
              else KeyLessEq(KeyOf(o.field, s[i]), KeyOf(o.field, s[j]))
  {
    forall i, j | 0 <= i < j < |s| {
      BeforeTotal(o, s[i], s[j]);
    }
  }

  /** Sorting a list already in order changes nothing. */
  lemma {:induction false} SortIdempotent(o: Order, xs: seq<Transaction>)
    requires Sorted(o, xs)
    ensures Sort(o, xs) == xs
  {
    if |xs| > 0 {
      assert Sorted(o, xs[1..]);
      SortIdempotent(o, xs[1..]);
      assert xs == [xs[0]] + xs[1..];
    }
  }

  /** A stable sort has exactly one possible result: any two sorted, stable arrangements agree. */
  lemma {:induction false} SortUnique(o: Order, a: seq<Transaction>, b: seq<Transaction>)
    requires Sorted(o, a) && Sorted(o, b)
    requires forall k :: WithKey(o.field, a, k) == WithKey(o.field, b, k)
    ensures a == b
  {
    var f := o.field;
    if |a| == 0 && |b| == 0 {
    } else if |a| == 0 {
      WithKeyHead(f, b);
      assert false;
    } else if |b| == 0 {
      WithKeyHead(f, a);
      assert false;
    } else {
      var k := KeyOf(f, a[0]);
      assert WithKey(f, a, k)[0] == a[0];
      assert KeyOf(f, b[0]) == k by {
        if KeyOf(f, b[0]) != k {
          var w := WithKey(f, b, k);
          assert a[0] in w;
          WithKeyMembers(f, b, k);
          var j :| 0 <= j < |b| && b[j] == a[0];
          var kb := KeyOf(f, b[0]);
          assert b[0] in WithKey(f, b, kb);
          WithKeyMembers(f, a, kb);
          var i :| 0 <= i < |a| && a[i] == b[0];
          BeforeTotal(o, a[0], b[0]);
        }
      }
      assert b[0] == a[0];
      forall k' ensures WithKey(f, a[1..], k') == WithKey(f, b[1..], k') {
        assert WithKey(f, a, k') == (if KeyOf(f, a[0]) == k' then [a[0]] else []) + WithKey(f, a[1..], k');
        assert WithKey(f, b, k') == (if KeyOf(f, b[0]) == k' then [b[0]] else []) + WithKey(f, b[1..], k');
        var h := if KeyOf(f, a[0]) == k' then [a[0]] else [];
        assert WithKey(f, a[1..], k') == WithKey(f, a, k')[|h|..];
        assert WithKey(f, b[1..], k') == WithKey(f, b, k')[|h|..];
      }
      SortUnique(o, a[1..], b[1..]);
      assert a == [a[0]] + a[1..] && b == [b[0]] + b[1..];
    }
  }

  lemma WithKeyHead(f: Field, s: seq<Transaction>)
    requires |s| > 0
    ensures WithKey(f, s, KeyOf(f, s[0])) != []
  {
  }

  lemma {:induction false} WithKeyMembers(f: Field, s: seq<Transaction>, k: Key)
    ensures forall t :: t in WithKey(f, s, k) ==> t in s && KeyOf(f, t) == k
  {
    if |s| > 0 {
      WithKeyMembers(f, s[1..], k);
    }
  }

  // ---------------------------------------------------------------------------
  // `reverse=True` is not the reverse of the ascending sort

  function Reverse(s: seq<Transaction>): (r: seq<Transaction>)
    ensures |r| == |s|
    ensures forall i :: 0 <= i < |s| ==> r[i] == s[|s| - 1 - i]
  {
    if |s| == 0 then [] else Reverse(s[1..]) + [s[0]]
  }

  lemma {:induction false} WithKeyAppend(f: Field, s: seq<Transaction>, t: seq<Transaction>, k: Key)
    ensures WithKey(f, s + t, k) == WithKey(f, s, k) + WithKey(f, t, k)
  {
    if |s| > 0 {
      assert (s + t)[1..] == s[1..] + t;
      WithKeyAppend(f, s[1..], t, k);
    } else {
      assert s + t == t;
    }
  }

  lemma {:induction false} WithKeyReverse(f: Field, s: seq<Transaction>, k: Key)
    ensures WithKey(f, Reverse(s), k) == Reverse(WithKey(f, s, k))
  {
    if |s| > 0 {
      WithKeyReverse(f, s[1..], k);
      WithKeyAppend(f, Reverse(s[1..]), [s[0]], k);
      var head := if KeyOf(f, s[0]) == k then [s[0]] else [];
      var tail := WithKey(f, s[1..], k);
      assert WithKey(f, [s[0]], k) == head;
      ReverseAppend(head, tail);
      assert Reverse(head) == head;
    }
  }

  lemma ReverseAppend(s: seq<Transaction>, t: seq<Transaction>)
    ensures Reverse(s + t) == Reverse(t) + Reverse(s)
  {
  }

  lemma ReverseReverse(s: seq<Transaction>)
    ensures Reverse(Reverse(s)) == s
  {
  }

  /**
   * CPython implements `reverse=True` as: reverse the list, sort it stably
   * ascending, reverse the result. So a descending mode is the ascending mode
   * applied to the reversed fetch, reversed back.
   */
  lemma DescendingIsReversedSortOfReversed(f: Field, xs: seq<Transaction>)
    ensures Sort(Order(f, true), xs) == Reverse(Sort(Order(f, false), Reverse(xs)))
  {
    var up := Order(f, false);
    var down := Order(f, true);
    var s := Sort(up, Reverse(xs));
    var r := Reverse(s);
    assert Sorted(down, r);
    forall k ensures WithKey(f, r, k) == WithKey(f, Sort(down, xs), k) {
      WithKeyReverse(f, s, k);
      WithKeyReverse(f, xs, k);
      ReverseReverse(WithKey(f, xs, k));
    }
    SortUnique(down, r, Sort(down, xs));
  }

  /**
   * Two rows with the same date, fetched as [a, b]: `date_desc` yields [a, b],
   * whereas reversing the `date_asc` result would yield [b, a].
   */
  lemma DescendingIsNotReversedAscending(a: Transaction, b: Transaction)
    requires a != b && a.date == b.date
    ensures Sort(Order(ByDate, true), [a, b]) == [a, b]
    ensures Reverse(Sort(Order(ByDate, false), [a, b])) == [b, a]
  {
    KeyLessIrreflexive(DateKey(a.date));
    assert [a, b][1..] == [b];
  }
}
