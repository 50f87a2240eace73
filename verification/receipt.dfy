/**
 * `manual_extraction`, the regex fallback that reads a price and a date out of
 * receipt text. Each pattern is given twice: as the grammar the regular
 * expression describes (which splits of the text match it) and as the
 * deterministic scan that `re.search` amounts to for these patterns; the two
 * are proved to agree, including on the leftmost match.
 */
module Receipt {
  import opened Wrappers
  import opened Text

  /** The literal after "Grand Total" in the pattern: the UTF-8 bytes of '₹' read as cp1252, three characters. */
  const Rupee: string := "\U{00E2}\U{201A}\U{00B9}"
  const GrandTotal: string := "Grand Total"
  const DateLabel: string := "Date:"

  predicate IsPrefix(a: string, b: string) {
    |a| <= |b| && b[..|a|] == a
  }

  predicate AllSpace(w: string) {
    forall i :: 0 <= i < |w| ==> IsSpace(w[i])
  }

  /** `\d+\.\d{2}`: at least one digit, a '.', two digits. */
  predicate PriceShape(cap: string) {
    |cap| >= 4 && cap[|cap| - 3] == '.' && AllDigits(cap[..|cap| - 3]) && IsDigit(cap[|cap| - 2]) && IsDigit(cap[|cap| - 1])
  }

  /** `\d{2}/\d{2}/\d{2}`. */
  predicate DateShape(cap: string) {
    |cap| == 8 && cap[2] == '/' && cap[5] == '/'
    && IsDigit(cap[0]) && IsDigit(cap[1]) && IsDigit(cap[3]) && IsDigit(cap[4]) && IsDigit(cap[6]) && IsDigit(cap[7])
  }

  /** `Grand Total\s*â‚¹\s*(\d+\.\d{2})` matches at `p` with group 1 equal to `cap`. */
  ghost predicate PriceMatchAt(s: string, p: nat, cap: string) {
    p <= |s| && PriceShape(cap) && exists w1: string, w2: string :: PriceSplit(s, p, w1, w2, cap)
  }

  /** `s` continues at `p` with "Grand Total", spaces `w1`, the rupee literal, spaces `w2`, then `cap`. */
  predicate PriceSplit(s: string, p: nat, w1: string, w2: string, cap: string) {
    p <= |s| && AllSpace(w1) && AllSpace(w2) && IsPrefix(GrandTotal + w1 + Rupee + w2 + cap, s[p..])
  }

  /** `Date:\s*(\d{2}/\d{2}/\d{2})` matches at `p` with group 1 equal to `cap`. */
  ghost predicate DateMatchAt(s: string, p: nat, cap: string) {
    p <= |s| && DateShape(cap) &&
    exists w: string :: AllSpace(w) && IsPrefix(DateLabel + w + cap, s[p..])
  }

  datatype CharClass = Spaces | Digits

  predicate InClass(c: char, cls: CharClass) {
    match cls
    case Spaces => IsSpace(c)
    case Digits => IsDigit(c)
  }

  /** End of the longest run of `cls` characters starting at `q` (what a greedy `\s*` or `\d+` consumes). */
  function Span(s: string, q: nat, cls: CharClass): (r: nat)
    requires q <= |s|
    ensures q <= r <= |s|
    ensures forall i :: q <= i < r ==> InClass(s[i], cls)
    ensures r == |s| || !InClass(s[r], cls)
    decreases |s| - q
  {
    if q == |s| || !InClass(s[q], cls) then q else Span(s, q + 1, cls)
  }

  /** `lit` occurs in `s` at `q`. */
  predicate HasAt(s: string, q: nat, lit: string) {
    q + |lit| <= |s| && s[q..q + |lit|] == lit
  }

  /** The price the pattern captures when the search tries position `p`, if it matches there. */
  function PriceAt(s: string, p: nat): Option<string> {
    if !HasAt(s, p, GrandTotal) then None
    else AfterTotal(s, Span(s, p + |GrandTotal|, Spaces))
  }

  /** `â‚¹\s*(\d+\.\d{2})` tried at `a`, once "Grand Total" and its spaces are consumed. */
  function AfterTotal(s: string, a: nat): Option<string>
    requires a <= |s|
  {
    if !HasAt(s, a, Rupee) then None
    else PriceFrom(s, Span(s, a + |Rupee|, Spaces))
  }

  /** `(\d+\.\d{2})` tried at `b`: the greedy digit run, then '.', then two digits. */
  function PriceFrom(s: string, b: nat): Option<string>
    requires b <= |s|
  {
    var d := Span(s, b, Digits);
    if d > b && d + 3 <= |s| && s[d] == '.' && IsDigit(s[d + 1]) && IsDigit(s[d + 2]) then Some(s[b..d + 3])
    else None
  }

  /** The date the pattern captures when the search tries position `p`, if it matches there. */
  function DateAt(s: string, p: nat): Option<string> {
    if !HasAt(s, p, DateLabel) then None
    else
      var a := Span(s, p + |DateLabel|, Spaces);
      if a + 8 <= |s| && DateShape(s[a..a + 8]) then Some(s[a..a + 8]) else None
  }

  /** A longest run ends where the class ends: the greedy `\s*` and `\d+` cannot overshoot. */
  lemma SpanStops(s: string, q: nat, k: nat, cls: CharClass)
    requires q <= k <= |s|
    requires forall i :: q <= i < k ==> InClass(s[i], cls)
    requires k == |s| || !InClass(s[k], cls)
    ensures Span(s, q, cls) == k
  {
  }

  /** Slices of `s` laid end to end. */
  lemma Join(s: string, q: nat, m: nat, r: nat)
    requires q <= m <= r <= |s|
    ensures s[q..r] == s[q..m] + s[m..r]
  {
  }

  /** A concatenation found in `s` at `q` is its two parts found one after the other. */
  lemma Split(s: string, q: nat, a: string, b: string)
    requires q + |a| + |b| <= |s| && s[q..q + |a| + |b|] == a + b
    ensures s[q..q + |a|] == a && s[q + |a|..q + |a| + |b|] == b
  {
    assert s[q..q + |a|] == s[q..q + |a| + |b|][..|a|];
    assert s[q + |a|..q + |a| + |b|] == s[q..q + |a| + |b|][|a|..];
  }

  /** The characters of a run of class `cls` found at `q`. */
  lemma RunAt(s: string, q: nat, w: string, cls: CharClass)
    requires q + |w| <= |s| && s[q..q + |w|] == w
    requires forall i :: 0 <= i < |w| ==> InClass(w[i], cls)
    ensures forall i :: q <= i < q + |w| ==> InClass(s[i], cls)
  {
    forall i | q <= i < q + |w| ensures InClass(s[i], cls) {
      assert s[i] == w[i - q];
    }
  }

  /** A literal followed by a run of spaces and then a non-space: the greedy `\s*` takes exactly that run. */
  lemma LiteralThenSpaces(s: string, q: nat, lit: string, w: string)
    requires q + |lit| + |w| < |s| && s[q..q + |lit| + |w|] == lit + w
    requires AllSpace(w) && !IsSpace(s[q + |lit| + |w|])
    ensures HasAt(s, q, lit)
    ensures Span(s, q + |lit|, Spaces) == q + |lit| + |w|
  {
    Split(s, q, lit, w);
    RunAt(s, q + |lit|, w, Spaces);
    SpanStops(s, q + |lit|, q + |lit| + |w|, Spaces);
  }

  /** A price-shaped text found at `b`: the greedy `\d+` stops at its '.'. */
  lemma PriceDigits(s: string, b: nat, cap: string)
    requires b + |cap| <= |s| && s[b..b + |cap|] == cap && PriceShape(cap)
    ensures PriceFrom(s, b) == Some(cap)
  {
    Split(s, b, cap[..|cap| - 3], cap[|cap| - 3..]);
    RunAt(s, b, cap[..|cap| - 3], Digits);
    assert s[b + |cap| - 3] == cap[|cap| - 3];
    SpanStops(s, b, b + |cap| - 3, Digits);
    assert s[b + |cap| - 2] == cap[|cap| - 2] && s[b + |cap| - 1] == cap[|cap| - 1];
    assert s[b..b + |cap|] == cap;
  }

  lemma PriceFromSound(s: string, b: nat)
    requires b <= |s| && PriceFrom(s, b).Some?
    ensures b + |PriceFrom(s, b).value| <= |s|
    ensures s[b..b + |PriceFrom(s, b).value|] == PriceFrom(s, b).value
    ensures PriceShape(PriceFrom(s, b).value)
  {
    var d := Span(s, b, Digits);
    var cap := s[b..d + 3];
    assert cap[..|cap| - 3] == s[b..d];
  }

  lemma AfterTotalSound(s: string, a: nat, cap: string)
    requires a <= |s| && AfterTotal(s, a) == Some(cap)
    ensures var b := Span(s, a + |Rupee|, Spaces);
            && HasAt(s, a, Rupee)
            && AllSpace(s[a + |Rupee|..b])
            && b + |cap| <= |s| && s[b..b + |cap|] == cap
            && PriceShape(cap)
  {
    PriceFromSound(s, Span(s, a + |Rupee|, Spaces));
  }

  /** Five consecutive slices of `s` make up the slice they span. */
  lemma JoinFive(s: string, p: nat, e1: nat, e2: nat, e3: nat, e4: nat, e5: nat,
                 x1: string, x2: string, x3: string, x4: string, x5: string)
    requires p <= e1 <= e2 <= e3 <= e4 <= e5 <= |s|
    requires s[p..e1] == x1 && s[e1..e2] == x2 && s[e2..e3] == x3 && s[e3..e4] == x4 && s[e4..e5] == x5
    ensures IsPrefix(x1 + x2 + x3 + x4 + x5, s[p..])
  {
    Join(s, p, e1, e2);
    Join(s, p, e2, e3);
    Join(s, p, e3, e4);
    Join(s, p, e4, e5);
    assert s[p..][..e5 - p] == s[p..e5];
  }

  lemma PriceAtSound(s: string, p: nat)
    requires PriceAt(s, p).Some?
    ensures PriceMatchAt(s, p, PriceAt(s, p).value)
  {
    var g := p + |GrandTotal|;
    var a := Span(s, g, Spaces);
    var b := Span(s, a + |Rupee|, Spaces);
    assert PriceAt(s, p) == AfterTotal(s, a);
    var cap := AfterTotal(s, a).value;
    AfterTotalSound(s, a, cap);
    SplitAt(s, p, a, b, cap);
  }

  /**
   * "Grand Total" at `p`, spaces up to `a`, the rupee literal, spaces up to
   * `b`, and `cap` at `b`: a price split.
   */
  lemma SplitAt(s: string, p: nat, a: nat, b: nat, cap: string)
    requires p + |GrandTotal| <= a && a + |Rupee| <= b && b + |cap| <= |s|
    requires HasAt(s, p, GrandTotal) && HasAt(s, a, Rupee) && s[b..b + |cap|] == cap
    requires forall i :: p + |GrandTotal| <= i < a ==> InClass(s[i], Spaces)
    requires AllSpace(s[a + |Rupee|..b])
    ensures PriceSplit(s, p, s[p + |GrandTotal|..a], s[a + |Rupee|..b], cap)
  {
    var g := p + |GrandTotal|;
    JoinFive(s, p, g, a, a + |Rupee|, b, b + |cap|, GrandTotal, s[g..a], Rupee, s[a + |Rupee|..b], cap);
  }

  /** The pieces of a price split, found one after the other in `s`. */
  lemma PricePieces(s: string, p: nat, w1: string, w2: string, cap: string)
    requires PriceSplit(s, p, w1, w2, cap)
    ensures p + |GrandTotal| + |w1| + |Rupee| + |w2| + |cap| <= |s|
    ensures s[p..p + |GrandTotal| + |w1|] == GrandTotal + w1
    ensures s[p + |GrandTotal| + |w1|..p + |GrandTotal| + |w1| + |Rupee| + |w2|] == Rupee + w2
    ensures s[p + |GrandTotal| + |w1| + |Rupee| + |w2|..p + |GrandTotal| + |w1| + |Rupee| + |w2| + |cap|] == cap
  {
    var b0 := p + |GrandTotal| + |w1| + |Rupee| + |w2|;
    assert s[p..b0 + |cap|] == GrandTotal + w1 + Rupee + w2 + cap;
    Split(s, p, GrandTotal + w1 + Rupee + w2, cap);
    Split(s, p, GrandTotal + w1, Rupee + w2);
  }

  lemma AfterTotalComplete(s: string, a0: nat, w2: string, cap: string)
    requires a0 + |Rupee| + |w2| + |cap| <= |s|
    requires s[a0..a0 + |Rupee| + |w2|] == Rupee + w2 && AllSpace(w2)
    requires s[a0 + |Rupee| + |w2|..a0 + |Rupee| + |w2| + |cap|] == cap && PriceShape(cap)
    ensures AfterTotal(s, a0) == Some(cap)
  {
    var b0 := a0 + |Rupee| + |w2|;
    assert s[b0] == s[b0..b0 + |cap|][0] == cap[0] == cap[..|cap| - 3][0];
    LiteralThenSpaces(s, a0, Rupee, w2);
    PriceDigits(s, b0, cap);
  }

  lemma PriceAtComplete(s: string, p: nat, cap: string)
    requires PriceMatchAt(s, p, cap)
    ensures PriceAt(s, p) == Some(cap)
  {
    var w1: string, w2: string :| PriceSplit(s, p, w1, w2, cap);
    var a0 := p + |GrandTotal| + |w1|;
    assert HasAt(s, p, GrandTotal) && Span(s, p + |GrandTotal|, Spaces) == a0 by {
      PricePieces(s, p, w1, w2, cap);
      assert s[a0] == s[a0..a0 + |Rupee| + |w2|][0] == Rupee[0];
      LiteralThenSpaces(s, p, GrandTotal, w1);
    }
    assert AfterTotal(s, a0) == Some(cap) by {
      PricePieces(s, p, w1, w2, cap);
      AfterTotalComplete(s, a0, w2, cap);
    }
  }

  lemma DateAtSound(s: string, p: nat)
    requires DateAt(s, p).Some?
    ensures DateMatchAt(s, p, DateAt(s, p).value)
  {
    var g := p + |DateLabel|;
    var a := Span(s, g, Spaces);
    var w := s[g..a];
    assert AllSpace(w);
    Join(s, p, g, a);
    Join(s, p, a, a + 8);
    assert s[p..a + 8] == DateLabel + w + s[a..a + 8];
    assert IsPrefix(DateLabel + w + s[a..a + 8], s[p..]);
  }

  lemma DateAtComplete(s: string, p: nat, cap: string)
    requires DateMatchAt(s, p, cap)
    ensures DateAt(s, p) == Some(cap)
  {
    var w: string :| AllSpace(w) && IsPrefix(DateLabel + w + cap, s[p..]);
    var g := p + |DateLabel|;
    var a0 := g + |w|;
    assert s[p..a0 + 8] == DateLabel + w + cap;
    Split(s, p, DateLabel + w, cap);
    Split(s, p, DateLabel, w);
    RunAt(s, g, w, Spaces);
    assert s[a0] == cap[0];
    SpanStops(s, g, a0, Spaces);
  }

  /** `re.search` for the price: the first position, from `from` on, where the pattern matches. */
  function SearchPrice(s: string, from: nat): Option<string>
    decreases |s| + 1 - from
  {
    if from > |s| then None
    else if PriceAt(s, from).Some? then PriceAt(s, from)
    else SearchPrice(s, from + 1)
  }

  /** `re.search` for the date. */
  function SearchDate(s: string, from: nat): Option<string>
    decreases |s| + 1 - from
  {
    if from > |s| then None
    else if DateAt(s, from).Some? then DateAt(s, from)
    else SearchDate(s, from + 1)
  }

  /** No price match starts in [from, p). */
  ghost predicate NoPriceBefore(s: string, from: nat, p: nat) {
    forall q, c :: from <= q < p ==> !PriceMatchAt(s, q, c)
  }

  /** The price search finds `cap` exactly when `cap` is the group of the leftmost match. */
  lemma {:induction false} SearchPriceLeftmost(s: string, from: nat, cap: string)
    ensures SearchPrice(s, from) == Some(cap) <==> exists p :: from <= p && PriceMatchAt(s, p, cap) && NoPriceBefore(s, from, p)
    decreases |s| + 1 - from, 1
  {
    if from <= |s| {
      if PriceAt(s, from).Some? {
        SearchPriceHit(s, from, cap);
      } else {
        SearchPriceMiss(s, from, cap);
      }
    }
  }

  lemma SearchPriceHit(s: string, from: nat, cap: string)
    requires from <= |s| && PriceAt(s, from).Some?
    ensures SearchPrice(s, from) == Some(cap) <==> exists p :: from <= p && PriceMatchAt(s, p, cap) && NoPriceBefore(s, from, p)
  {
    PriceAtSound(s, from);
    if SearchPrice(s, from) == Some(cap) {
      assert NoPriceBefore(s, from, from);
    } else {
      forall p | from <= p && PriceMatchAt(s, p, cap) && NoPriceBefore(s, from, p) ensures false {
        PriceAtComplete(s, p, cap);
      }
    }
  }

  lemma {:induction false} SearchPriceMiss(s: string, from: nat, cap: string)
    requires from <= |s| && PriceAt(s, from).None?
    ensures SearchPrice(s, from) == Some(cap) <==> exists p :: from <= p && PriceMatchAt(s, p, cap) && NoPriceBefore(s, from, p)
    decreases |s| + 1 - from, 0
  {
    SearchPriceLeftmost(s, from + 1, cap);
    forall c | PriceMatchAt(s, from, c) ensures false {
      PriceAtComplete(s, from, c);
    }
    if exists p :: from <= p && PriceMatchAt(s, p, cap) && NoPriceBefore(s, from, p) {
      var p :| from <= p && PriceMatchAt(s, p, cap) && NoPriceBefore(s, from, p);
      assert p != from;
      assert NoPriceBefore(s, from + 1, p);
    }
    if exists p :: from + 1 <= p && PriceMatchAt(s, p, cap) && NoPriceBefore(s, from + 1, p) {
      var p :| from + 1 <= p && PriceMatchAt(s, p, cap) && NoPriceBefore(s, from + 1, p);
      assert NoPriceBefore(s, from, p);
    }
  }

  /** No date match starts in [from, p). */
  ghost predicate NoDateBefore(s: string, from: nat, p: nat) {
    forall q, c :: from <= q < p ==> !DateMatchAt(s, q, c)
  }

  /** The date search finds `cap` exactly when `cap` is the group of the leftmost match. */
  lemma {:induction false} SearchDateLeftmost(s: string, from: nat, cap: string)
    ensures SearchDate(s, from) == Some(cap) <==> exists p :: from <= p && DateMatchAt(s, p, cap) && NoDateBefore(s, from, p)
    decreases |s| + 1 - from, 1
  {
    if from <= |s| {
      if DateAt(s, from).Some? {
        SearchDateHit(s, from, cap);
      } else {
        SearchDateMiss(s, from, cap);
      }
    }
  }

  lemma SearchDateHit(s: string, from: nat, cap: string)
    requires from <= |s| && DateAt(s, from).Some?
    ensures SearchDate(s, from) == Some(cap) <==> exists p :: from <= p && DateMatchAt(s, p, cap) && NoDateBefore(s, from, p)
  {
    DateAtSound(s, from);
    if SearchDate(s, from) == Some(cap) {
      assert NoDateBefore(s, from, from);
    } else {
      forall p | from <= p && DateMatchAt(s, p, cap) && NoDateBefore(s, from, p) ensures false {
        DateAtComplete(s, p, cap);
      }
    }
  }

  lemma {:induction false} SearchDateMiss(s: string, from: nat, cap: string)
    requires from <= |s| && DateAt(s, from).None?
    ensures SearchDate(s, from) == Some(cap) <==> exists p :: from <= p && DateMatchAt(s, p, cap) && NoDateBefore(s, from, p)
    decreases |s| + 1 - from, 0
  {
    SearchDateLeftmost(s, from + 1, cap);
    forall c | DateMatchAt(s, from, c) ensures false {
      DateAtComplete(s, from, c);
    }
    if exists p :: from <= p && DateMatchAt(s, p, cap) && NoDateBefore(s, from, p) {
      var p :| from <= p && DateMatchAt(s, p, cap) && NoDateBefore(s, from, p);
      assert p != from;
      assert NoDateBefore(s, from + 1, p);
    }
    if exists p :: from + 1 <= p && DateMatchAt(s, p, cap) && NoDateBefore(s, from + 1, p) {
      var p :| from + 1 <= p && DateMatchAt(s, p, cap) && NoDateBefore(s, from + 1, p);
      assert NoDateBefore(s, from, p);
    }
  }

  /**
   * `manual_extraction`: "price" and "date" when their patterns match
   * (the group of the leftmost match), and always "category": "Food".
   */
  function ManualExtraction(text: string): (r: map<string, string>)
    ensures r.Keys <= {"price", "date", "category"}
    ensures "category" in r && r["category"] == "Food"
    ensures "price" in r <==> SearchPrice(text, 0).Some?
    ensures "price" in r ==> r["price"] == SearchPrice(text, 0).value
    ensures "date" in r <==> SearchDate(text, 0).Some?
    ensures "date" in r ==> r["date"] == SearchDate(text, 0).value
  {
    var withPrice := match SearchPrice(text, 0)
      case Some(price) => map["price" := price]
      case None => map[];
    var withDate := match SearchDate(text, 0)
      case Some(date) => withPrice["date" := date]
      case None => withPrice;
    withDate["category" := "Food"]
  }

  /**
   * What the extraction promises in terms of the patterns: "price" is present
   * exactly when the price pattern matches somewhere, and then holds the group
   * of its leftmost match; likewise "date".
   */
  lemma ManualExtractionMeaning(text: string, cap: string)
    ensures ("price" in ManualExtraction(text) && ManualExtraction(text)["price"] == cap) <==>
              exists p :: PriceMatchAt(text, p, cap) && NoPriceBefore(text, 0, p)
    ensures ("date" in ManualExtraction(text) && ManualExtraction(text)["date"] == cap) <==>
              exists p :: DateMatchAt(text, p, cap) && NoDateBefore(text, 0, p)
  {
    SearchPriceLeftmost(text, 0, cap);
    SearchDateLeftmost(text, 0, cap);
  }

  /** Whatever "price" holds has the shape `\d+\.\d{2}`; whatever "date" holds, `\d{2}/\d{2}/\d{2}`. */
  lemma ManualExtractionShapes(text: string)
    ensures "price" in ManualExtraction(text) ==> PriceShape(ManualExtraction(text)["price"])
    ensures "date" in ManualExtraction(text) ==> DateShape(ManualExtraction(text)["date"])
  {
    var r := ManualExtraction(text);
    if "price" in r {
      SearchPriceLeftmost(text, 0, r["price"]);
    }
    if "date" in r {
      SearchDateLeftmost(text, 0, r["date"]);
    }
  }
}
