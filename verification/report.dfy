/**
 * The cell texts of the transactions PDF (`generate_transactions_pdf`) and the
 * range of `generate_otp`. Page layout, fonts and the output file are not modelled.
 */
module Report {
  import opened Wrappers
  import opened Text
  import opened Calendar
  import opened Store

  /** The column titles, left to right. */
  const Header: seq<string> := ["Date", "Category", "Remark", "Type", "Amount"]

  /** `str(date)`: 'YYYY-MM-DD', every field zero-padded. */
  function DateText(d: Date): (r: string)
    ensures Valid(d) ==> |r| == 10 && r[4] == '-' && r[7] == '-'
  {
    assert Valid(d) ==> |ZeroPad(d.year, 4)| == 4 && |ZeroPad(d.month, 2)| == 2 && |ZeroPad(d.day, 2)| == 2 by {
      if Valid(d) {
        NatToStringLength(d.year, 4);
        NatToStringLength(d.month, 2);
        NatToStringLength(d.day, 2);
        assert Pow10(2) == 100;
        assert Pow10(4) == 10000;
      }
    }
    ZeroPad(d.year, 4) + "-" + ZeroPad(d.month, 2) + "-" + ZeroPad(d.day, 2)
  }

  /** Reads a 'YYYY-MM-DD' text back into its three numbers. */
  function ParseDate(s: string): (r: Option<Date>)
    ensures r.Some? ==> |s| == 10
  {
    if |s| == 10 && s[4] == '-' && s[7] == '-' && AllDigits(s[..4]) && AllDigits(s[5..7]) && AllDigits(s[8..]) then
      Some(Date(ParseNat(s[..4]), ParseNat(s[5..7]), ParseNat(s[8..])))
    else None
  }

  /** The date cell names its date: reading it back gives the date itself. */
  lemma DateTextRoundTrip(d: Date)
    requires Valid(d)
    ensures ParseDate(DateText(d)) == Some(d)
  {
    var s := DateText(d);
    assert s[..4] == ZeroPad(d.year, 4);
    assert s[5..7] == ZeroPad(d.month, 2);
    assert s[8..] == ZeroPad(d.day, 2);
    ParseZeroPad(d.year, 4);
    ParseZeroPad(d.month, 2);
    ParseZeroPad(d.day, 2);
  }

  /** A non-negative number of cents as units, '.', and exactly two digits. */
  function UnsignedText(m: nat): (r: string)
    ensures |r| >= 4 && r[|r| - 3] == '.' && r[0] != '-'
    ensures r[..|r| - 3] == NatToString(m / 100)
  {
    var body := NatToString(m / 100) + "." + ZeroPad(m % 100, 2);
    assert |ZeroPad(m % 100, 2)| == 2 by {
      NatToStringLength(m % 100, 2);
      assert Pow10(2) == 100;
    }
    assert body[0] == NatToString(m / 100)[0];
    body
  }

  /** `f"{amount:.2f}"` of a DECIMAL(10,2) amount held in cents: sign, units, '.', two digits. */
  function AmountText(cents: int): (r: string)
    ensures |r| >= 4 && r[|r| - 3] == '.'
    ensures (r[0] == '-') <==> cents < 0
  {
    if cents < 0 then "-" + UnsignedText(-cents) else UnsignedText(cents)
  }

  /** The text is canonical: the units carry no leading zeros, as `%.2f` prints them. */
  lemma AmountTextCanonical(cents: int)
    ensures var r := AmountText(cents);
            r[..|r| - 3] == (if cents < 0 then "-" else "") + NatToString((if cents < 0 then -cents else cents) / 100)
  {
  }

  /** Reads units '.' digit digit back into cents. */
  function ParseUnsigned(s: string): (r: Option<nat>)
  {
    if |s| >= 4 && s[|s| - 3] == '.' && AllDigits(s[..|s| - 3]) && AllDigits(s[|s| - 2..]) then
      Some(ParseNat(s[..|s| - 3]) * 100 + ParseNat(s[|s| - 2..]))
    else None
  }

  /** Reads an amount text ('-'? units '.' digit digit) back into cents. */
  function ParseAmount(s: string): (r: Option<int>)
  {
    if |s| > 0 && s[0] == '-' then
      match ParseUnsigned(s[1..])
      case Some(m) => Some(0 - m as int)
      case None => None
    else
      match ParseUnsigned(s)
      case Some(m) => Some(m)
      case None => None
  }

  lemma UnsignedTextRoundTrip(m: nat)
    ensures ParseUnsigned(UnsignedText(m)) == Some(m)
  {
    var units := NatToString(m / 100);
    var frac := ZeroPad(m % 100, 2);
    NatToStringLength(m % 100, 2);
    assert Pow10(2) == 100;
    var s := UnsignedText(m);
    assert s == units + "." + frac;
    assert s[..|s| - 3] == units;
    assert s[|s| - 2..] == frac;
    ParseNatToString(m / 100);
    ParseZeroPad(m % 100, 2);
  }

  /** The amount cell shows the exact amount, to the cent. */
  lemma AmountTextRoundTrip(cents: int)
    ensures ParseAmount(AmountText(cents)) == Some(cents)
  {
    var s := AmountText(cents);
    if cents < 0 {
      var m: nat := -cents;
      assert s == "-" + UnsignedText(m);
      NegativeTextRoundTrip(m);
      assert -(m as int) == cents;
    } else {
      assert s == UnsignedText(cents);
      PositiveTextRoundTrip(cents);
    }
  }

  lemma PositiveTextRoundTrip(m: nat)
    ensures ParseAmount(UnsignedText(m)) == Some(m as int)
  {
    UnsignedTextRoundTrip(m);
  }

  lemma NegativeTextRoundTrip(m: nat)
    ensures ParseAmount("-" + UnsignedText(m)) == Some(-(m as int))
  {
    var u := UnsignedText(m);
    UnsignedTextRoundTrip(m);
    assert ("-" + u)[1..] == u;
  }

  /** The remark cell: the remark, or "-" when it is missing or empty (`remark or "-"`). */
  function RemarkText(remark: Option<string>): (r: string)
    ensures r != ""
    ensures remark.Some? && remark.value != "" ==> r == remark.value
    ensures remark.None? || remark == Some("") ==> r == "-"
  {
    match remark
    case Some(text) => if text == "" then "-" else text
    case None => "-"
  }

  /** The five cells one transaction contributes, in column order. */
  function Row(t: Transaction): (r: seq<string>)
    ensures |r| == |Header|
  {
    [DateText(t.date), t.category, RemarkText(t.remark), KindName(t.kind), AmountText(t.amount)]
  }

  /** Each cell of a row reads back to the field it shows. */
  lemma RowReadsBack(t: Transaction)
    ensures Row(t)[1] == t.category && Row(t)[3] == KindName(t.kind)
    ensures ParseAmount(Row(t)[4]) == Some(t.amount)
    ensures Valid(t.date) ==> ParseDate(Row(t)[0]) == Some(t.date)
    ensures Row(t)[2] == RemarkText(t.remark)
  {
    AmountTextRoundTrip(t.amount);
    if Valid(t.date) {
      DateTextRoundTrip(t.date);
    }
  }

  /** One row per transaction, in the given order. */
  function Rows(transactions: seq<Transaction>): (r: seq<seq<string>>)
    ensures |r| == |transactions|
    ensures forall i :: 0 <= i < |transactions| ==> r[i] == Row(transactions[i])
  {
    if |transactions| == 0 then []
    else [Row(transactions[0])] + Rows(transactions[1..])
  }

  /** The table of the report: the header row, then one row per transaction in input order. */
  function Table(transactions: seq<Transaction>): (r: seq<seq<string>>)
    ensures |r| == |transactions| + 1 && r[0] == Header
    ensures forall i :: 0 <= i < |transactions| ==> r[i + 1] == Row(transactions[i])
  {
    var rows := Rows(transactions);
    var r := [Header] + rows;
    assert forall i :: 0 <= i < |transactions| ==> r[i + 1] == rows[i];
    r
  }

  /** `random.randint(1000, 9999)`; the random draw is the parameter `draw`. */
  function GenerateOtp(draw: nat): (r: nat)
    ensures 1000 <= r <= 9999
  {
    1000 + draw % 9000
  }

  /** Every code in the range can be drawn. */
  lemma GenerateOtpCovers(otp: nat)
    requires 1000 <= otp <= 9999
    ensures GenerateOtp(otp - 1000) == otp
  {
  }

  /** A number lies in the OTP range exactly when its decimal text has four digits. */
  lemma OtpHasFourDigits(n: nat)
    ensures 1000 <= n <= 9999 <==> |NatToString(n)| == 4
  {
    NatToStringLength(n, 4);
    NatToStringLength(n, 3);
    assert Pow10(3) == 1000;
    assert Pow10(4) == 10000;
  }
}
