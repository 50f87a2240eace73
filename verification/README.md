# ExpenseFlow expense tracker — a Dafny model of its core

ExpenseFlow is a small Flask web application. Users register, log in and record
Income and Expense transactions. The application lists, sorts and filters the
transactions, shows dashboard totals and a per-category breakdown, exports a PDF
table, resets passwords with a mailed one-time code, and falls back to regular
expressions when reading a receipt.

This project models the deterministic core of that application as pure Dafny
functions over immutable values and proves properties about it:

- `wrappers.dfy` (`Wrappers`): the `Option` type.
- `text.dfy` (`Text`): the helpers used on characters.
  - ASCII `str.lower()` and the regex classes `\d` and `\s`.
  - `str(n)` and its inverse, and zero padding.
  - Python's lexicographic order on strings.
- `calendar.dfy` (`Calendar`): proleptic Gregorian dates between 0001-01-01 and 9999-12-31.
  - The day number is Python's `toordinal`, and `weekday()` is derived from it.
  - `date ± timedelta(days=n)` is a step function that fails (`OverflowError`) outside that range.
- `store.dfy` (`Store`): the `users` and `transactions` tables as one value, `Db(users, rows, nextId)`, and every `database.py` operation on them.
  - It also holds the two bulk statements of the web module: the delete in `reset_dashboard` and the monthly job that zeroes every amount.
- `sorting.dfy` (`Sorting`): the ten `sort_by` keys and a stable insertion sort.
  - Python's `list.sort` is stable. `reverse=True` in CPython reverses the list, sorts it stably, then reverses it again.
  - The model proves that any sorted, per-key-order-preserving arrangement is unique, so this sort *is* the result Timsort gives.
- `query.dfy` (`Query`): `get_transactions` and `get_transactions_by_date`.
  - The repository has two behaviourally identical copies of each: database.py:105-179, and expense_tracker.py:105-180, which is the copy the routes call. The database.py copies also initialise an unused `transactions = []` first. Both are the one definition here.
- `presets.dfy` (`Presets`): the dashboard's `date_filter` presets (today, week, month, last_month, year, anything else).
- `dashboard.dfy` (`Dashboard`):
  - the dashboard totals and the "first ten" slice;
  - `get_balance_data`;
  - the category breakdown of `get_expense_data`.
- `account.dfy` (`Account`):
  - the `forgot_password` / `enter_otp` / `reset_password` session state machine, including the weakness described under Findings and a corrected flow;
  - `toggle_theme`.
- `upload.dfy` (`Upload`): `allowed_file`.
- `report.dfy` (`Report`): the cell texts of `generate_transactions_pdf` and the range of `generate_otp`.
- `receipt.dfy` (`Receipt`): `manual_extraction`. Each pattern is defined twice:
  - as the grammar it describes;
  - as the deterministic scan `re.search` performs for it.
  The two are proved to agree, including on which match is leftmost.

Modelling choices:
- **Parameters instead of outside calls.** The following are parameters of the functions that use them:
  - "today" and "now" (now in microseconds);
  - the bcrypt check (a `matches` function) and the hash of a new password;
  - whether a mail was sent;
  - the random OTP draw.
- **Amounts.** Amounts are `DECIMAL(10,2)` values held as integer cents.
- **Fetch order.** A `SELECT` without `ORDER BY` returns rows in table (insertion) order.
- **Email matching.** Email comparison is exact string equality.

## Model

| member | source | states |
|---|---|---|
| Store.AddUser | database.py:51-71 | False and no change when the email exists; otherwise exactly one new user with currency '₹ (INR)' and theme 'light', found by that email afterwards, every other lookup unchanged, transactions untouched |
| Store.GetUser | database.py:73-87 | a user is returned only when the email exists and the password matches its stored hash; an unknown email or a wrong password gives None |
| Store.UpdateCurrency | database.py:224-235 | returns True; a registered user's record afterwards is the old record with only the currency replaced (password hash and theme kept); an unknown email stays unknown and reads back the default; no other user and no row changes |
| Store.GetUserCurrency | database.py:237-248 | the stored currency, or '₹ (INR)' for an unknown email |
| Store.UpdateTheme | database.py:250-261 | returns True; a registered user's record afterwards is the old record with only the theme replaced (password hash and currency kept); an unknown email stays unknown and reads back the default; no other user and no row changes |
| Store.GetUserTheme | database.py:263-272 | the stored theme, or 'light' for an unknown email |
| Store.SetPassword | expense_tracker.py:305 | only the password hash of the matching user changes; users with other emails and all transactions are unchanged |
| Store.GetTransactionById | database.py:211-222 | a row is returned only if it has both the id and the email; None means no row matches both |
| Store.OwnershipIsolation | database.py:216 | another user's transaction id never yields a row |
| Store.AddTransaction | database.py:89-103 | returns True; exactly one row is appended, existing rows are unchanged, and reading the new id back under the same email gives exactly the supplied fields |
| Store.UpdateTransaction | database.py:181-196 | returns True even when nothing matches; only the row with both the id and the email gets the new type, category, amount, date and remark, keeping its id and email; every other row is unchanged |
| Store.UpdateThenGet | database.py:186-190 | after an update, reading the row back by id and email gives the new fields, or still nothing if no row matched |
| Store.DeleteTransaction | database.py:198-209 | returns True; removes exactly the rows with both the id and the email; with no such row the table is unchanged; in a well-formed store the one matching row is cut out of its position and the rows before and after it stay in order |
| Store.DeleteAllOf | expense_tracker.py:715 | `reset_dashboard`: the user is left with no rows, and every other user's rows are unchanged and in the same order |
| Store.ZeroAllAmounts | expense_tracker.py:25-35 | the monthly job: every row of every user gets amount 0 and keeps every other field; users untouched |
| Sorting.Sort | database.py:116-135 | the output is a permutation of the input, ordered by the mode's key, and stable: for every key the rows carrying it keep their input order |
| Sorting.InsertPermutes | database.py:116-135 | inserting a row into a listing adds exactly that row |
| Sorting.SortUnique | database.py:116-135 | two sorted arrangements that keep every key's rows in the same order are equal, so the stable sort is Python's result |
| Sorting.SortIdempotent | database.py:116-135 | sorting an already sorted list changes nothing |
| Sorting.SortedMeaning | database.py:116-135 | in a sorted listing, a row's key is never after a later row's key: ascending for `_asc`, descending for `_desc` |
| Sorting.DescendingIsReversedSortOfReversed | database.py:119 | a `_desc` sort is CPython's `reverse=True`: reverse, stable ascending sort, reverse again |
| Sorting.DescendingIsNotReversedAscending | database.py:117-119 | two distinct rows with the same date keep their fetch order under date_desc, while reversing the date_asc result would swap them |
| Query.Arrange | expense_tracker.py:119-140 | the `sort_by` chain: a permutation of the fetched rows, sorted and stable for a recognised mode, and exactly the fetch order for any other value |
| Query.ParseSortByNames | expense_tracker.py:119-138 | each of the ten mode names selects the key and direction it spells; an empty or upper-case name selects nothing |
| Query.ParseSortByModeName | expense_tracker.py:119-138 | for every string and every order: the string selects that order exactly when it is the column name followed by `_asc` or `_desc` |
| Query.ParseSortByUnknown | expense_tracker.py:119-138 | a string selects nothing exactly when it is no column name followed by `_asc` or `_desc`; then the fetch order is kept |
| Query.ArrangeIsTheStableSort | expense_tracker.py:119-138 | for a recognised mode, a list is the result exactly when it is sorted by that mode and keeps the fetch order among rows with equal keys; so the result is the one Python's stable `list.sort` gives |
| Query.GetTransactions | expense_tracker.py:144-178 | exactly the user's rows, each as often as stored; an unknown `sort_by` keeps table order; a known one sorts them, keeping table order among equal keys (also database.py:105-139) |
| Query.GetTransactionsByDate | expense_tracker.py:105-142 | exactly the user's rows with start ≤ date ≤ end, both ends inclusive, each as often as stored; an unknown `sort_by` keeps table order; a known one sorts them, keeping table order among equal keys (also database.py:141-179) |
| Query.SingleDayRange | expense_tracker.py:112 | a range from one day to the same day returns exactly that day's rows |
| Query.ListingIsFixedPoint | database.py:116-135 | a listing in a recognised mode is already in that order |
| Query.ResetDashboardIsolation | expense_tracker.py:715 | after `reset_dashboard` the user's listing is empty and any other user's listing is identical |
| Query.RemarkAscScenario | database.py:125 | remark_asc treats a missing remark as '' and so lists it first, then 'apple', then 'zebra' |
| Calendar.OrdinalOrder | expense_tracker.py:341-355 | the day number orders dates exactly as the calendar does and identifies them |
| Calendar.ForwardOrdinal | expense_tracker.py:346 | `d + timedelta(days=n)` exists exactly when the day number stays ≤ that of 9999-12-31, and then adds n to the day number |
| Calendar.BackwardOrdinal | expense_tracker.py:345 | `d - timedelta(days=n)` exists exactly when the day number stays ≥ 1, and then subtracts n |
| Calendar.NextMonthOrdinal | expense_tracker.py:349 | the 1st of the next month lies exactly `days in this month` after the 1st of this month |
| Presets.WeekPreset | expense_tracker.py:344-346 | week: from the Monday of today's week to the Sunday six days later, so it contains today; it overflows only past 9999-12-31 |
| Presets.MonthPreset | expense_tracker.py:347-349 | month: the +32-days step always lands in the next month, so the range is the 1st to the last day of this month; only December 9999 overflows |
| Presets.LastMonthPreset | expense_tracker.py:350-352 | last_month: the 1st to the last day of the previous month, across January too; only January of year 1 overflows |
| Presets.PresetContainsToday | expense_tracker.py:341-360 | every preset range has start ≤ end; today, week, month and year contain today; last_month ends before today; 'all' and unknown filters apply no date filter |
| Dashboard.BalanceIsNet | expense_tracker.py:362-364 | income total minus expense total equals the signed sum of the rows; an empty list gives 0 |
| Dashboard.Totals | expense_tracker.py:362-364 | the loop computes the Income total, the Expense total and their difference |
| Dashboard.SortKeepsTotal | expense_tracker.py:362-363 | the totals do not depend on the sort order |
| Dashboard.FirstTen | expense_tracker.py:366 | `transactions[:10]`: a prefix of length min(n, 10) |
| Dashboard.DashboardView | expense_tracker.py:341-366 | for every filter that does not overflow: income and expense are the sums of the filtered listing's Income and Expense rows, and balance is income minus expense; the rows shown are a prefix of the newest-first listing of length min(n, 10), so a listing of fewer than ten rows is shown in full; every row belongs to the user |
| Dashboard.BalanceData | expense_tracker.py:594-607 | `get_balance_data`: the signed sum of all the user's rows |
| Dashboard.ZeroedTotals | expense_tracker.py:30 | after the monthly job every user's income, expense and balance are 0 |
| Dashboard.ExpenseBreakdown | expense_tracker.py:575-587 | the labels are each Expense category once; values and labels have equal length; each value is that category's Expense total; the values sum to the total expense |
| Dashboard.TallyOther | expense_tracker.py:577 | an Income row leaves the labels, the values and the expense total as they were |
| Dashboard.TallyKnown | expense_tracker.py:580-581 | an Expense row of a category already listed adds its amount to that category's value only |
| Dashboard.TallyNew | expense_tracker.py:582-583 | an Expense row of a new category appends the category, with its amount as the value |
| Dashboard.CategoriesFacts | expense_tracker.py:575-585 | the labels are distinct and are exactly the categories of Expense rows |
| Dashboard.CategoriesInFirstAppearanceOrder | expense_tracker.py:585 | labels follow the order of each category's first Expense row |
| Dashboard.AliceScenario | expense_tracker.py:594-603 | two added rows (expense 50.00, income 1000.00) list income first under amount_desc and give balance 950.00 |
| Account.ForgotPassword | expense_tracker.py:213-249 | the OTP, the email and the time are stored, followed by a move to OTP entry, exactly when the email exists and the mail was sent; otherwise the session is unchanged and the user stays on the form |
| Account.EnterOtp | expense_tracker.py:251-282 | never changes the session; moves to reset iff `str(otp)` equals the input and strictly less than 5 minutes have passed; a mismatch goes back to OTP entry; an expired code or missing keys go to forgot_password |
| Account.AcceptedCodeIsTheOtp | expense_tracker.py:271 | an accepted input is a digit string whose value is the stored OTP |
| Account.ResetPassword | expense_tracker.py:284-321 | without 'otp_email' in the session, goes to forgot_password; a missing or empty password stays on the form; otherwise only that email's hash changes, the three OTP keys are cleared, and the user goes to home |
| Account.OtpBypass | expense_tracker.py:288-290 | right after forgot_password, a reset succeeds without any code being entered |
| Account.GuardedResetNeedsOtp | expense_tracker.py:232-234 | corrected flow: over any sequence of requests in which no code is accepted, the store never changes |
| Account.GuardedHonestReset | expense_tracker.py:258-314 | corrected flow: requesting a code, entering it in time and resetting changes exactly that user's password hash and clears the session |
| Account.ToggleTheme | expense_tracker.py:691-701 | the new theme is 'dark' iff the stored theme is 'light'; a registered user's record afterwards is the old one with only the theme replaced; no other user, no row and not the next id changes |
| Account.ToggleTwice | expense_tracker.py:697-699 | toggling twice restores a registered user's 'light' or 'dark' theme |
| Upload.AllowedFileMeaning | expense_tracker.py:22-23 | true iff the name is some prefix, a '.', and a dot-free suffix whose lower-case form is png, jpg, jpeg or gif |
| Upload.UpperCaseExtension | expense_tracker.py:22-23 | 'a.PNG' is allowed |
| Upload.OnlyLastExtension | expense_tracker.py:23 | 'x.png.exe' is refused |
| Report.RowReadsBack | smtp_handler.py:325-330 | the five cells follow the header's order: the date cell reads back to the date, then the category, the remark or "-", the type, and the two-decimal amount, which reads back to the exact amount |
| Report.Rows | smtp_handler.py:324-331 | one row per transaction, in input order |
| Report.Table | smtp_handler.py:317-331 | the table has one more row than there are transactions: the header first, then each transaction's row in input order |
| Report.RemarkText | smtp_handler.py:328 | the remark, or "-" when the remark is None or empty |
| Report.AmountTextCanonical | smtp_handler.py:325 | the `%.2f` text: a '-' exactly for negative amounts, then the units without leading zeros, '.', and two digits |
| Report.AmountTextRoundTrip | smtp_handler.py:325 | the two-decimal text of any amount, negative ones included, reads back to exactly that amount |
| Report.DateTextRoundTrip | smtp_handler.py:326 | the date cell of a valid date is 'YYYY-MM-DD' and reads back to that date |
| Report.GenerateOtp | smtp_handler.py:336-337 | every drawn code lies in [1000, 9999] |
| Report.GenerateOtpCovers | smtp_handler.py:337 | every code in [1000, 9999] can be drawn |
| Report.OtpHasFourDigits | smtp_handler.py:337 | a number is in [1000, 9999] exactly when its decimal text has four digits |
| Receipt.PriceAtSound | gemini_api.py:67 | what the scan captures at a position is a match of the price grammar there |
| Receipt.PriceAtComplete | gemini_api.py:67 | every match of the price grammar at a position is what the scan captures, so the group is unique |
| Receipt.DateAtSound | gemini_api.py:71 | what the scan captures at a position is a match of the date grammar there |
| Receipt.DateAtComplete | gemini_api.py:71 | every match of the date grammar at a position is what the scan captures |
| Receipt.SearchPriceLeftmost | gemini_api.py:67-69 | the price search returns `cap` iff `cap` is the group of the leftmost match |
| Receipt.SearchDateLeftmost | gemini_api.py:71-73 | the date search returns `cap` iff `cap` is the group of the leftmost match |
| Receipt.ManualExtraction | gemini_api.py:64-77 | keys only price, date and category; category is always "Food"; price and date are present exactly when their searches succeed |
| Receipt.ManualExtractionMeaning | gemini_api.py:65-73 | "price" holds `cap` iff the price pattern's leftmost match captures `cap`; likewise "date" |
| Receipt.ManualExtractionShapes | gemini_api.py:67-73 | a price has the shape digits '.' two digits, and a date has the shape dd/dd/dd |

## Left out

- **Connection failure.** `create_connection` returning None, the implicit `None` return it causes, and the `except Error` branches are not modelled. In the model every statement succeeds.
- **MySQL's case-insensitive collation.** It also applies to `Email = %s` and ignores trailing spaces. Emails are compared exactly.
- **Values MySQL would reject.** A type outside Income/Expense, amounts beyond `DECIMAL(10,2)`, and invalid dates are not modelled: `Kind` has only the two kinds, and amounts are unbounded integers.
- **Ids.** `AUTO_INCREMENT` ids are modelled as a counter that grows by one. MySQL may skip values, which does not affect any stated property.
- **Fetch order.** The order of a `SELECT` without `ORDER BY` is assumed to be table order.
- **Form handling.** Form parsing, `.strip()` and `float()` on form fields, Flask routing, templates, `flash`, and the `'user_id' not in session` redirects are not modelled.
- **Login and register.** The login and register routes, and `change_password` (expense_tracker.py:660-689), are not modelled. Only the store operations they call are (`Store.GetUser`, `Store.AddUser`, `Store.SetPassword`).
- **bcrypt.** Hashing and checking are parameters: the `matches` function and the new hash.
- **Outside effects.** The following are not modelled, because they are I/O or foreign calls:
  - SMTP and the HTML mail bodies;
  - the FPDF page layout, fonts and the timestamped file name (only the cell texts are kept);
  - OCR and the Gemini API calls;
  - `visualizations.py`;
  - APScheduler's timing (only the effect of the monthly job is kept).
- **Stored OTP time.** The ISO timestamp in the session and its time-zone stripping are not modelled. The time is an integer number of microseconds.
- Dashboard.ExpenseBreakdown: the source adds `float` values. The model adds exact cents, so float rounding in the per-category sums is not modelled.
- Sorting.Sort: the `float(amount)` key is compared as exact cents. This agrees with the source for every `DECIMAL(10,2)` value.
- Sorting.Sort: the `category_*` and `remark_*` keys use an ASCII-only `str.lower()`. Non-ASCII capitals are left as they are, so "Éz" sorts before "éa" here, while Python lower-cases "É" and puts "éa" first.
- Report.DateTextRoundTrip: stated for valid dates only. Other dates cannot come out of a `DATE` column.
- Report.GenerateOtp: the random draw is a parameter. Uniformity of `random.randint` is not modelled.
- Upload.AllowedFileMeaning: `str.lower()` is ASCII-only here. Non-ASCII letters that Python lower-cases into an allowed extension are not covered.
- Receipt.ManualExtraction: `\d` and `\s` are the ASCII classes here. Python's Unicode classes also match other digits and spaces.
- Presets.PresetContainsToday: only the date part of `datetime.today()` is modelled. The time of day does not reach the SQL range, which is formatted as `%Y-%m-%d`.

## Findings

| source | as written | input that shows it | evidently intended | confidence | as-written member | corrected member |
|---|---|---|---|---|---|---|
| expense_tracker.py:288-290 | `reset_password` only checks that 'otp_email' is in the session, and `forgot_password` sets that key (expense_tracker.py:232-234) before any code is checked | POST /forgot_password with a registered email (the mail goes to its owner), then POST /reset_password with any non-empty password: the password of that account changes although no code was entered | a reset is allowed only after `enter_otp` accepted the code: the session records a verified flag, `forgot_password` clears it, an accepted code sets it, and `reset_password` requires it | high; not executed | Account.OtpBypass | Account.GuardedResetNeedsOtp |
