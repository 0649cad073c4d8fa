/** How a row of the list is highlighted, from the whole days left until the
    item's expiry date (negative once the date has passed). */
module ItemStyle {

  datatype Urgency = Expired | ExpiringSoon | Normal

  /** Items due within this many days count as expiring soon. */
  const SoonDays: int := 7

  function Classify(days: int): (u: Urgency)
    ensures u == Expired <==> days < 0
    ensures u == ExpiringSoon <==> 0 <= days < SoonDays
    ensures u == Normal <==> SoonDays <= days
  {
    if days < 0 then Expired
    else if days < SoonDays then ExpiringSoon
    else Normal
  }

  /** The CSS class the row gets for each urgency. */
  function ClassName(u: Urgency): string {
    match u
    case Expired => "bg-red-100"
    case ExpiringSoon => "bg-yellow-100"
    case Normal => ""
  }

  /** `getItemStyle`, with the date difference already computed. */
  function GetItemStyle(days: int): (style: string)
    ensures style == "bg-red-100" <==> days < 0
    ensures style == "bg-yellow-100" <==> 0 <= days < SoonDays
    ensures style == "" <==> SoonDays <= days
  {
    ClassName(Classify(days))
  }

  /** Each urgency has its own class, so the class tells the urgency. */
  lemma ClassNameInjective(u: Urgency, v: Urgency)
    ensures ClassName(u) == ClassName(v) <==> u == v
  {
  }

  function Rank(u: Urgency): nat {
    match u
    case Expired => 0
    case ExpiringSoon => 1
    case Normal => 2
  }

  /** More days left never makes an item more urgent. */
  lemma ClassifyMonotone(d: int, e: int)
    requires d <= e
    ensures Rank(Classify(d)) <= Rank(Classify(e))
  {
  }

  /** The edges of the three bands. */
  lemma ClassifyBoundaries()
    ensures Classify(-1) == Expired
    ensures Classify(0) == ExpiringSoon
    ensures Classify(6) == ExpiringSoon
    ensures Classify(7) == Normal
  {
  }
}
