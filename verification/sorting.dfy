/** The display order: `items.sort((a, b) => new Date(a.expiryDate).getTime()
    - new Date(b.expiryDate).getTime())`, a stable sort by expiry date that
    reorders the array it is called on. */
module ExpirySort {
  import opened Decimal
  import opened Dates
  import opened Items
  import opened StableSort

  /** Every expiry date is a well-formed date, so the comparator never
      yields NaN. */
  predicate Dated(s: seq<Item>) {
    forall i :: 0 <= i < |s| ==> WellFormedDate(s[i].expiryDate)
  }

  /** The sort key: the day number of the expiry date. Only well-formed dates
      are ever compared; the value for any other text is never used. */
  function ExpiryKey(x: Item): int {
    if WellFormedDate(x.expiryDate) then DayNumber(x.expiryDate) else 0
  }

  /** The comparator handed to `sort`; positive means `b` goes first. On
      well-formed dates its sign is that of the key difference. */
  function Compare(a: Item, b: Item): (c: int)
    requires WellFormedDate(a.expiryDate) && WellFormedDate(b.expiryDate)
    ensures c > 0 <==> ExpiryKey(a) > ExpiryKey(b)
    ensures c == 0 <==> a.expiryDate == b.expiryDate
  {
    TimeValueOrder(a.expiryDate, b.expiryDate);
    TimeValueOrder(b.expiryDate, a.expiryDate);
    DayNumberOrder(a.expiryDate, b.expiryDate);
    TimeValue(a.expiryDate) - TimeValue(b.expiryDate)
  }

  /** The list as it is displayed: in expiry order, ties in list order. */
  function DisplayOrder(s: seq<Item>): (r: seq<Item>)
    ensures multiset(r) == multiset(s)
  {
    SortByPermutes(s, ExpiryKey);
    SortBy(s, ExpiryKey)
  }

  /** The displayed list holds the same items, is in expiry order, and keeps
      the relative order of items that expire on the same day. */
  lemma DisplayOrderSpec(s: seq<Item>)
    ensures multiset(DisplayOrder(s)) == multiset(s)
    ensures Sorted(DisplayOrder(s), ExpiryKey)
    ensures StableRearrangement(DisplayOrder(s), s, ExpiryKey)
  {
    SortByPermutes(s, ExpiryKey);
    SortByCharacterised(s, DisplayOrder(s), ExpiryKey);
  }

  /** For well-formed dates, expiry order is also the order of the date text
      under JavaScript's `<`: no later item's date text is smaller. */
  lemma DisplayOrderIsTextOrder(s: seq<Item>, i: nat, j: nat)
    requires Dated(s)
    requires i < j < |s|
    ensures !StrLess(DisplayOrder(s)[j].expiryDate, DisplayOrder(s)[i].expiryDate)
  {
    var r := DisplayOrder(s);
    DisplayOrderSpec(s);
    assert r[i] in multiset(s) && r[j] in multiset(s);
    // The witnesses only show that r[i] and r[j] come from s, so their dates
    // are well formed.
    var p :| 0 <= p < |s| && s[p] == r[i];
    var q :| 0 <= q < |s| && s[q] == r[j];
    DayNumberOrder(r[j].expiryDate, r[i].expiryDate);
    DateBeforeIsTextOrder(r[j].expiryDate, r[i].expiryDate);
  }

  /** A date of 2025 written from two-digit month and day numerals that
      name a day every month has. */
  lemma DateIn2025(s: string, m: string, d: string, month: nat, day: nat)
    requires |m| == 2 && |d| == 2 && AllDigits(m) && AllDigits(d)
    requires s == "2025" + "-" + m + "-" + d
    requires month == DigitValue(m[0]) * 10 + DigitValue(m[1]) && 1 <= month <= 12
    requires day == DigitValue(d[0]) * 10 + DigitValue(d[1]) && 1 <= day <= 28
    ensures WellFormedDate(s) && s[..4] == "2025" && Month(s) == month && Day(s) == day
  {
    DateFields(s, "2025", m, d);
    TwoDigits(m);
    TwoDigits(d);
  }

  /** The three dates of the example below are calendar dates, and as days
      they come in the order January 5, February 20, March 10. */
  lemma ExampleDates(jan: string, feb: string, mar: string)
    requires jan == "2025-01-05" && feb == "2025-02-20" && mar == "2025-03-10"
    ensures WellFormedDate(jan) && WellFormedDate(feb) && WellFormedDate(mar)
    ensures DayNumber(jan) < DayNumber(feb) < DayNumber(mar)
  {
    DateIn2025(jan, "01", "05", 1, 5);
    DateIn2025(feb, "02", "20", 2, 20);
    DateIn2025(mar, "03", "10", 3, 10);
    DayNumberAscends(jan, feb);
    DayNumberAscends(feb, mar);
  }

  /** Three items entered out of date order are shown in date order. */
  lemma ThreeDatesExample(a: Item, b: Item, c: Item)
    requires a.expiryDate == "2025-03-10"
    requires b.expiryDate == "2025-01-05"
    requires c.expiryDate == "2025-02-20"
    ensures DisplayOrder([a, b, c]) == [b, c, a]
  {
    var s, t := [a, b, c], [b, c, a];
    ExampleDates(b.expiryDate, c.expiryDate, a.expiryDate);
    SortedOfThree(b, c, a, ExpiryKey);
    forall k ensures WithKey(t, ExpiryKey, k) == WithKey(s, ExpiryKey, k) {
      WithKeyOfThree(b, c, a, ExpiryKey, k);
      WithKeyOfThree(a, b, c, ExpiryKey, k);
    }
    SortByCharacterised(s, t, ExpiryKey);
  }
}
