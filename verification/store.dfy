/**
 * The `users` and `transactions` tables as one immutable value, and the
 * statements the application runs against them. Every operation that the
 * Python code wraps in a connection returns the new table contents together
 * with the function's boolean result.
 */
module Store {
  import opened Wrappers
  import opened Calendar

  /** The `type` column: ENUM('Income', 'Expense'). */
  datatype Kind = Income | Expense

  function KindName(k: Kind): string {
    match k
    case Income => "Income"
    case Expense => "Expense"
  }

  /** One row of `transactions`; `amount` is DECIMAL(10,2) in cents, `remark` is nullable. */
  datatype Transaction = Transaction(
    id: nat,
    email: string,
    kind: Kind,
    category: string,
    amount: int,
    date: Date,
    remark: Option<string>)

  /** One row of `users`; the password is stored only as its hash. */
  datatype User = User(email: string, passwordHash: string, currency: string, theme: string)

  /** Both tables, plus the next AUTO_INCREMENT value of `transactions.id`. */
  datatype Db = Db(users: seq<User>, rows: seq<Transaction>, nextId: nat)

  const DefaultCurrency: string := "\U{20B9} (INR)"
  const DefaultTheme: string := "light"

  /** The database right after `initialize_database` created both tables. */
  const Empty: Db := Db([], [], 1)

  /** Primary and unique keys: ids are distinct and below the counter, emails are distinct. */
  predicate Wellformed(db: Db) {
    && (forall i :: 0 <= i < |db.rows| ==> db.rows[i].id < db.nextId)
    && DistinctIds(db.rows)
    && (forall i, j :: 0 <= i < j < |db.users| ==> db.users[i].email != db.users[j].email)
  }

  // ---------------------------------------------------------------------------
  // Row selection shared by the queries and the deletes

  /** The rows that satisfy `keep`, in table order (a WHERE clause). */
  function Select(rows: seq<Transaction>, keep: Transaction -> bool): (r: seq<Transaction>)
    ensures forall t :: t in r <==> t in rows && keep(t)
    ensures multiset(r) <= multiset(rows)
  {
    if |rows| == 0 then []
    else
      var rest := Select(rows[1..], keep);
      assert rows == [rows[0]] + rows[1..];
      if keep(rows[0]) then [rows[0]] + rest else rest
  }

  /** `WHERE Email = %s`, in table order. */
  function Owned(rows: seq<Transaction>, email: string): (r: seq<Transaction>)
    ensures forall t :: t in r <==> t in rows && t.email == email
  {
    Select(rows, (t: Transaction) => t.email == email)
  }

  predicate Targets(t: Transaction, id: nat, email: string) {
    t.id == id && t.email == email
  }

  // ---------------------------------------------------------------------------
  // users

  function FindUserIn(users: seq<User>, email: string): (r: Option<User>)
    ensures r.Some? ==> r.value in users && r.value.email == email
    ensures r.None? ==> forall u :: u in users ==> u.email != email
  {
    if |users| == 0 then None
    else if users[0].email == email then Some(users[0])
    else FindUserIn(users[1..], email)
  }

  /** `SELECT * FROM users WHERE Email = %s` followed by `fetchone()`. */
  function FindUser(db: Db, email: string): (r: Option<User>)
    ensures r.Some? ==> r.value in db.users && r.value.email == email
    ensures r.None? ==> forall u :: u in db.users ==> u.email != email
  {
    FindUserIn(db.users, email)
  }

  lemma {:induction false} FindUserAppend(users: seq<User>, u: User, email: string)
    ensures FindUserIn(users + [u], email)
         == if FindUserIn(users, email).Some? then FindUserIn(users, email)
            else if u.email == email then Some(u) else None
  {
    if |users| > 0 {
      assert (users + [u])[1..] == users[1..] + [u];
      FindUserAppend(users[1..], u, email);
    }
  }

  /**
   * `add_user`: False, nothing written, when the email is taken; otherwise one new
   * user with the default currency and theme, after which looking the email up
   * finds exactly that record and every other email still finds what it found.
   */
  function AddUser(db: Db, email: string, passwordHash: string): (r: (Db, bool))
    ensures r.1 <==> forall u :: u in db.users ==> u.email != email
    ensures !r.1 ==> r.0 == db
    ensures r.1 ==> FindUser(r.0, email) == Some(User(email, passwordHash, DefaultCurrency, DefaultTheme))
    ensures r.1 ==> forall e :: e != email ==> FindUser(r.0, e) == FindUser(db, e)
    ensures r.0.rows == db.rows && r.0.nextId == db.nextId
    ensures Wellformed(db) ==> Wellformed(r.0)
  {
    if FindUser(db, email).Some? then (db, false)
    else
      var u := User(email, passwordHash, DefaultCurrency, DefaultTheme);
      var db' := db.(users := db.users + [u]);
      FindUserAppend(db.users, u, email);
      assert forall e :: e != email ==> FindUser(db', e) == FindUser(db, e) by {
        forall e | e != email {
          FindUserAppend(db.users, u, e);
        }
      }
      (db', true)
  }

  /**
   * `get_user`: the user's record when the email exists and the password
   * verifies against its stored hash (`bcrypt.checkpw`, here the parameter
   * `matches`); None otherwise.
   */
  function GetUser(db: Db, email: string, password: string, matches: (string, string) -> bool): (r: Option<User>)
    ensures r.Some? ==> r.value in db.users && r.value.email == email && matches(password, r.value.passwordHash)
    ensures (forall u :: u in db.users ==> u.email != email) ==> r.None?
    ensures Wellformed(db) && r.None? ==> forall u :: u in db.users && u.email == email ==> !matches(password, u.passwordHash)
  {
    var found := FindUser(db, email);
    if found.Some? && matches(password, found.value.passwordHash) then found else None
  }

  /** Applies `change` to every user whose email is `email` (an UPDATE ... WHERE Email = %s). */
  function UpdateUsers(users: seq<User>, email: string, change: User -> User): (r: seq<User>)
    ensures |r| == |users|
    ensures forall i :: 0 <= i < |users| ==> r[i] == if users[i].email == email then change(users[i]) else users[i]
  {
    if |users| == 0 then []
    else [if users[0].email == email then change(users[0]) else users[0]] + UpdateUsers(users[1..], email, change)
  }

  lemma {:induction false} FindAfterUpdate(users: seq<User>, email: string, change: User -> User, e: string)
    requires forall u :: change(u).email == u.email
    ensures FindUserIn(UpdateUsers(users, email, change), e)
         == if e == email && FindUserIn(users, e).Some? then Some(change(FindUserIn(users, e).value))
            else FindUserIn(users, e)
  {
    if |users| > 0 {
      var r := UpdateUsers(users, email, change);
      assert r[1..] == UpdateUsers(users[1..], email, change);
      FindAfterUpdate(users[1..], email, change, e);
    }
  }

  /** A user-table update keeps the users' emails, so it keeps them unique. */
  lemma UpdateUsersWellformed(db: Db, email: string, change: User -> User)
    requires Wellformed(db)
    requires forall u :: change(u).email == u.email
    ensures Wellformed(db.(users := UpdateUsers(db.users, email, change)))
  {
  }

  /** `update_currency`: True; the user's currency becomes `currency`, nothing else changes. */
  function UpdateCurrency(db: Db, email: string, currency: string): (r: (Db, bool))
    ensures r.1
    ensures r.0.rows == db.rows && r.0.nextId == db.nextId && |r.0.users| == |db.users|
    ensures GetUserCurrency(r.0, email) == if FindUser(db, email).Some? then currency else DefaultCurrency
    ensures FindUser(r.0, email) == if FindUser(db, email).Some? then Some(FindUser(db, email).value.(currency := currency)) else None
    ensures forall e :: e != email ==> FindUser(r.0, e) == FindUser(db, e)
    ensures Wellformed(db) ==> Wellformed(r.0)
  {
    var change := (u: User) => u.(currency := currency);
    var db' := db.(users := UpdateUsers(db.users, email, change));
    FindAfterUpdate(db.users, email, change, email);
    assert forall e :: e != email ==> FindUser(db', e) == FindUser(db, e) by {
      forall e | e != email {
        FindAfterUpdate(db.users, email, change, e);
      }
    }
    assert Wellformed(db) ==> Wellformed(db') by {
      if Wellformed(db) { UpdateUsersWellformed(db, email, change); }
    }
    (db', true)
  }

  /** `get_user_currency`: the stored currency, or the default for an unknown email. */
  function GetUserCurrency(db: Db, email: string): (r: string)
    ensures (forall u :: u in db.users ==> u.email != email) ==> r == DefaultCurrency
    ensures Wellformed(db) ==> forall u :: u in db.users && u.email == email ==> r == u.currency
  {
    match FindUser(db, email)
    case Some(u) => u.currency
    case None => DefaultCurrency
  }

  /** `update_theme`: True; the user's theme becomes `theme`, nothing else changes. */
  function UpdateTheme(db: Db, email: string, theme: string): (r: (Db, bool))
    ensures r.1
    ensures r.0.rows == db.rows && r.0.nextId == db.nextId && |r.0.users| == |db.users|
    ensures GetUserTheme(r.0, email) == if FindUser(db, email).Some? then theme else DefaultTheme
    ensures FindUser(r.0, email) == if FindUser(db, email).Some? then Some(FindUser(db, email).value.(theme := theme)) else None
    ensures forall e :: e != email ==> FindUser(r.0, e) == FindUser(db, e)
    ensures Wellformed(db) ==> Wellformed(r.0)
  {
    var change := (u: User) => u.(theme := theme);
    var db' := db.(users := UpdateUsers(db.users, email, change));
    FindAfterUpdate(db.users, email, change, email);
    assert forall e :: e != email ==> FindUser(db', e) == FindUser(db, e) by {
      forall e | e != email {
        FindAfterUpdate(db.users, email, change, e);
      }
    }
    assert Wellformed(db) ==> Wellformed(db') by {
      if Wellformed(db) { UpdateUsersWellformed(db, email, change); }
    }
    (db', true)
  }

  /** `get_user_theme`: the stored theme, or 'light' for an unknown email. */
  function GetUserTheme(db: Db, email: string): (r: string)
    ensures (forall u :: u in db.users ==> u.email != email) ==> r == DefaultTheme
    ensures Wellformed(db) ==> forall u :: u in db.users && u.email == email ==> r == u.theme
  {
    match FindUser(db, email)
    case Some(u) => u.theme
    case None => DefaultTheme
  }

  /** `UPDATE users SET password = %s WHERE Email = %s` (password reset and change). */
  function SetPassword(db: Db, email: string, passwordHash: string): (r: Db)
    ensures r.rows == db.rows && r.nextId == db.nextId && |r.users| == |db.users|
    ensures FindUser(r, email) == if FindUser(db, email).Some? then Some(FindUser(db, email).value.(passwordHash := passwordHash)) else None
    ensures forall e :: e != email ==> FindUser(r, e) == FindUser(db, e)
    ensures Wellformed(db) ==> Wellformed(r)
  {
    var change := (u: User) => u.(passwordHash := passwordHash);
    var db' := db.(users := UpdateUsers(db.users, email, change));
    FindAfterUpdate(db.users, email, change, email);
    assert forall e :: e != email ==> FindUser(db', e) == FindUser(db, e) by {
      forall e | e != email {
        FindAfterUpdate(db.users, email, change, e);
      }
    }
    assert Wellformed(db) ==> Wellformed(db') by {
      if Wellformed(db) { UpdateUsersWellformed(db, email, change); }
    }
    db'
  }

  // ---------------------------------------------------------------------------
  // transactions

  function FindRow(rows: seq<Transaction>, id: nat, email: string): (r: Option<Transaction>)
    ensures r.Some? ==> r.value in rows && Targets(r.value, id, email)
    ensures r.None? ==> forall t :: t in rows ==> !Targets(t, id, email)
  {
    if |rows| == 0 then None
    else if Targets(rows[0], id, email) then Some(rows[0])
    else FindRow(rows[1..], id, email)
  }

  predicate DistinctIds(rows: seq<Transaction>) {
    forall i, j :: 0 <= i < j < |rows| ==> rows[i].id != rows[j].id
  }

  /** With unique ids the lookup finds the one row that carries the id and owner. */
  lemma {:induction false} FindRowUnique(rows: seq<Transaction>, t: Transaction, id: nat, email: string)
    requires DistinctIds(rows) && t in rows && Targets(t, id, email)
    ensures FindRow(rows, id, email) == Some(t)
  {
    if rows[0] != t {
      assert t in rows[1..];
      FindRowUnique(rows[1..], t, id, email);
    }
  }

  /** `get_transaction_by_id`: the row with this id, provided it belongs to `email`. */
  function GetTransactionById(db: Db, id: nat, email: string): (r: Option<Transaction>)
    ensures r.Some? ==> r.value in db.rows && r.value.id == id && r.value.email == email
    ensures r.None? ==> forall t :: t in db.rows ==> !Targets(t, id, email)
  {
    FindRow(db.rows, id, email)
  }

  /** Guessing another user's id yields nothing: the owner is part of the lookup key. */
  lemma OwnershipIsolation(db: Db, t: Transaction, email: string)
    requires Wellformed(db) && t in db.rows && t.email != email
    ensures GetTransactionById(db, t.id, email) == None
  {
    forall u | u in db.rows && u.id == t.id ensures u == t {
      var i :| 0 <= i < |db.rows| && db.rows[i] == u;
      var j :| 0 <= j < |db.rows| && db.rows[j] == t;
      assert i == j;
    }
  }

  /**
   * `add_transaction`: True; the new row takes the next id, the existing rows are
   * kept, and fetching that id for the same owner returns exactly the supplied fields.
   */
  function AddTransaction(db: Db, email: string, kind: Kind, category: string, amount: int, date: Date, remark: Option<string>)
    : (r: (Db, bool))
    ensures r.1
    ensures |r.0.rows| == |db.rows| + 1 && r.0.rows[..|db.rows|] == db.rows
    ensures r.0.users == db.users && r.0.nextId == db.nextId + 1
    ensures Wellformed(db) ==> Wellformed(r.0)
    ensures Wellformed(db) ==>
              GetTransactionById(r.0, db.nextId, email) == Some(Transaction(db.nextId, email, kind, category, amount, date, remark))
  {
    var t := Transaction(db.nextId, email, kind, category, amount, date, remark);
    var db' := db.(rows := db.rows + [t], nextId := db.nextId + 1);
    assert db'.rows[..|db.rows|] == db.rows;
    assert Wellformed(db) ==> GetTransactionById(db', db.nextId, email) == Some(t) by {
      if Wellformed(db) {
        FindRowUnique(db'.rows, t, db.nextId, email);
      }
    }
    (db', true)
  }

  /**
   * `update_transaction`: True even when nothing matched; the row with this id
   * and owner gets the new type, category, amount, date and remark, every
   * other row is unchanged.
   */
  function UpdateTransaction(db: Db, id: nat, email: string, kind: Kind, category: string, amount: int, date: Date, remark: Option<string>)
    : (r: (Db, bool))
    ensures r.1
    ensures r.0.users == db.users && r.0.nextId == db.nextId && |r.0.rows| == |db.rows|
    ensures forall i :: 0 <= i < |db.rows| && !Targets(db.rows[i], id, email) ==> r.0.rows[i] == db.rows[i]
    ensures forall i :: 0 <= i < |db.rows| && Targets(db.rows[i], id, email) ==>
              r.0.rows[i] == Transaction(id, email, kind, category, amount, date, remark)
    ensures Wellformed(db) ==> Wellformed(r.0)
  {
    var rows := seq(|db.rows|, i requires 0 <= i < |db.rows| =>
      if Targets(db.rows[i], id, email) then db.rows[i].(kind := kind, category := category, amount := amount, date := date, remark := remark)
      else db.rows[i]);
    (db.(rows := rows), true)
  }

  /** After an update, fetching the row by id shows every new field; an absent row stays absent. */
  lemma UpdateThenGet(db: Db, id: nat, email: string, kind: Kind, category: string, amount: int, date: Date, remark: Option<string>)
    requires Wellformed(db)
    ensures var db' := UpdateTransaction(db, id, email, kind, category, amount, date, remark).0;
            GetTransactionById(db', id, email)
            == if GetTransactionById(db, id, email).Some? then Some(Transaction(id, email, kind, category, amount, date, remark)) else None
  {
    var db' := UpdateTransaction(db, id, email, kind, category, amount, date, remark).0;
    var t := Transaction(id, email, kind, category, amount, date, remark);
    if GetTransactionById(db, id, email).Some? {
      var i :| 0 <= i < |db.rows| && db.rows[i] == GetTransactionById(db, id, email).value;
      assert db'.rows[i] == t;
      FindRowUnique(db'.rows, t, id, email);
    } else {
      forall u | u in db'.rows ensures !Targets(u, id, email) {
        var i :| 0 <= i < |db'.rows| && db'.rows[i] == u;
        assert db.rows[i] in db.rows;
      }
    }
  }

  /** A delete by (id, Email) removes at most one row when ids are unique. */
  lemma {:induction false} SelectOthersDropsAtMostOne(rows: seq<Transaction>, id: nat, email: string)
    requires DistinctIds(rows)
    ensures |Select(rows, (t: Transaction) => !Targets(t, id, email))| >= |rows| - 1
  {
    if |rows| > 0 {
      SelectOthersDropsAtMostOne(rows[1..], id, email);
      if Targets(rows[0], id, email) {
        SelectKeepsAll(rows[1..], (t: Transaction) => !Targets(t, id, email));
      }
    }
  }

  lemma {:induction false} SelectKeepsAll(rows: seq<Transaction>, keep: Transaction -> bool)
    requires forall i :: 0 <= i < |rows| ==> keep(rows[i])
    ensures Select(rows, keep) == rows
  {
    if |rows| > 0 {
      SelectKeepsAll(rows[1..], keep);
      assert rows == [rows[0]] + rows[1..];
    }
  }

  lemma {:induction false} SelectDistinctIds(rows: seq<Transaction>, keep: Transaction -> bool)
    requires DistinctIds(rows)
    ensures DistinctIds(Select(rows, keep))
  {
    if |rows| > 0 {
      SelectDistinctIds(rows[1..], keep);
      var rest := Select(rows[1..], keep);
      forall u | u in rest ensures u.id != rows[0].id {
        var k :| 0 <= k < |rows[1..]| && rows[1..][k] == u;
        assert rows[k + 1] == u;
      }
    }
  }

  /** Without a targeted row, the delete's WHERE clause keeps the table as it is. */
  lemma SelectNoTarget(rows: seq<Transaction>, id: nat, email: string)
    requires FindRow(rows, id, email).None?
    ensures Select(rows, (t: Transaction) => !Targets(t, id, email)) == rows
  {
    forall i | 0 <= i < |rows| ensures !Targets(rows[i], id, email) {
      assert rows[i] in rows;
    }
    SelectKeepsAll(rows, (t: Transaction) => !Targets(t, id, email));
  }

  /** Where `FindRow` found its row: the first position holding the id and owner. */
  function TargetIndex(rows: seq<Transaction>, id: nat, email: string): (i: nat)
    requires FindRow(rows, id, email).Some?
    ensures i < |rows| && rows[i] == FindRow(rows, id, email).value
  {
    if Targets(rows[0], id, email) then 0 else 1 + TargetIndex(rows[1..], id, email)
  }

  lemma DistinctIdsTail(rows: seq<Transaction>)
    requires |rows| > 0 && DistinctIds(rows)
    ensures DistinctIds(rows[1..])
    ensures forall t :: t in rows[1..] ==> t.id != rows[0].id
  {
    forall t | t in rows[1..] ensures t.id != rows[0].id {
      var j :| 0 <= j < |rows[1..]| && rows[1..][j] == t;
      assert rows[j + 1] == t;
    }
  }

  lemma CutAfterHead<T>(s: seq<T>, k: nat)
    requires k + 1 < |s|
    ensures s[..k + 1] + s[k + 2..] == [s[0]] + (s[1..][..k] + s[1..][k + 1..])
  {
  }

  /** With unique ids, the delete cuts the found row out of its place and keeps the rest in order. */
  lemma {:induction false} SelectCutsTarget(rows: seq<Transaction>, id: nat, email: string)
    requires DistinctIds(rows) && FindRow(rows, id, email).Some?
    ensures Select(rows, (t: Transaction) => !Targets(t, id, email))
              == rows[..TargetIndex(rows, id, email)] + rows[TargetIndex(rows, id, email) + 1..]
  {
    var keep := (t: Transaction) => !Targets(t, id, email);
    DistinctIdsTail(rows);
    if Targets(rows[0], id, email) {
      forall j | 0 <= j < |rows[1..]| ensures keep(rows[1..][j]) {
        assert rows[1..][j] in rows[1..];
      }
      SelectKeepsAll(rows[1..], keep);
    } else {
      SelectCutsTarget(rows[1..], id, email);
      CutAfterHead(rows, TargetIndex(rows[1..], id, email));
    }
  }

  /**
   * `delete_transaction`: True even when nothing matched; removes the row with
   * this id and owner (at most one, ids being unique) and keeps every other row
   * in its table order.
   */
  function DeleteTransaction(db: Db, id: nat, email: string): (r: (Db, bool))
    ensures r.1
    ensures r.0.users == db.users && r.0.nextId == db.nextId
    ensures forall t :: t in r.0.rows <==> t in db.rows && !Targets(t, id, email)
    ensures FindRow(db.rows, id, email).None? ==> r.0.rows == db.rows
    ensures Wellformed(db) && FindRow(db.rows, id, email).Some? ==>
              exists i :: 0 <= i < |db.rows| && db.rows[i] == FindRow(db.rows, id, email).value
                && r.0.rows == db.rows[..i] + db.rows[i + 1..]
    ensures Wellformed(db) ==> |r.0.rows| >= |db.rows| - 1 && Wellformed(r.0)
  {
    var rows := Select(db.rows, (t: Transaction) => !Targets(t, id, email));
    assert Wellformed(db) ==> |rows| >= |db.rows| - 1 && Wellformed(db.(rows := rows)) by {
      if Wellformed(db) {
        SelectOthersDropsAtMostOne(db.rows, id, email);
        SelectKeepsWellformed(db, rows, (t: Transaction) => !Targets(t, id, email));
      }
    }
    assert FindRow(db.rows, id, email).None? ==> rows == db.rows by {
      if FindRow(db.rows, id, email).None? { SelectNoTarget(db.rows, id, email); }
    }
    assert Wellformed(db) && FindRow(db.rows, id, email).Some? ==>
             exists i :: 0 <= i < |db.rows| && db.rows[i] == FindRow(db.rows, id, email).value
               && rows == db.rows[..i] + db.rows[i + 1..] by {
      if Wellformed(db) && FindRow(db.rows, id, email).Some? { SelectCutsTarget(db.rows, id, email); }
    }
    (db.(rows := rows), true)
  }

  lemma SelectKeepsWellformed(db: Db, rows: seq<Transaction>, keep: Transaction -> bool)
    requires Wellformed(db) && rows == Select(db.rows, keep)
    ensures Wellformed(db.(rows := rows))
  {
    SelectDistinctIds(db.rows, keep);
    forall i | 0 <= i < |rows| ensures rows[i].id < db.nextId {
      assert rows[i] in db.rows;
    }
  }

  /** `reset_dashboard`'s statement: every row of `email` goes, every other row stays. */
  function DeleteAllOf(db: Db, email: string): (r: Db)
    ensures r.users == db.users && r.nextId == db.nextId
    ensures Owned(r.rows, email) == []
    ensures forall e :: e != email ==> Owned(r.rows, e) == Owned(db.rows, e)
    ensures Wellformed(db) ==> Wellformed(r)
  {
    var rows := Select(db.rows, (t: Transaction) => t.email != email);
    SelectOwnedNone(rows, email);
    assert forall e :: e != email ==> Owned(rows, e) == Owned(db.rows, e) by {
      forall e | e != email {
        OwnedOfOthers(db.rows, email, e);
      }
    }
    assert Wellformed(db) ==> Wellformed(db.(rows := rows)) by {
      if Wellformed(db) { SelectKeepsWellformed(db, rows, (t: Transaction) => t.email != email); }
    }
    db.(rows := rows)
  }

  lemma {:induction false} SelectOwnedNone(rows: seq<Transaction>, email: string)
    requires forall t :: t in rows ==> t.email != email
    ensures Owned(rows, email) == []
  {
    if |rows| > 0 {
      assert rows[0] in rows;
      SelectOwnedNone(rows[1..], email);
    }
  }

  lemma {:induction false} OwnedOfOthers(rows: seq<Transaction>, email: string, e: string)
    requires e != email
    ensures Owned(Select(rows, (t: Transaction) => t.email != email), e) == Owned(rows, e)
  {
    if |rows| > 0 {
      OwnedOfOthers(rows[1..], email, e);
    }
  }

  /**
   * `reset_monthly_transactions`: every row of every user gets amount 0 (the
   * WHERE type IN ('Income', 'Expense') clause matches every row); no other
   * field, no row count and no user changes.
   */
  function ZeroAllAmounts(db: Db): (r: Db)
    ensures r.users == db.users && r.nextId == db.nextId && |r.rows| == |db.rows|
    ensures forall i :: 0 <= i < |db.rows| ==> r.rows[i].amount == 0
    ensures forall i :: 0 <= i < |db.rows| ==>
              var (a, b) := (r.rows[i], db.rows[i]);
              a.id == b.id && a.email == b.email && a.kind == b.kind && a.category == b.category
              && a.date == b.date && a.remark == b.remark
    ensures Wellformed(db) ==> Wellformed(r)
  {
    db.(rows := seq(|db.rows|, i requires 0 <= i < |db.rows| => db.rows[i].(amount := 0)))
  }
}
