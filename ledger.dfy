/** The day ledger `dailyData`: for each date key, the day's running `total`
    and its append-only list of intake `entries`; and the classification of a
    day's total that colours its cell in the monthly overview. */
module Ledger {

  /** One logged drink. `timestamp` and `id` come from the clock
      (`new Date().toISOString()` and `Date.now().toString()`). */
  datatype Entry = Entry(amount: int, timestamp: string, id: string)

  datatype DayRecord = DayRecord(total: int, entries: seq<Entry>)

  type DailyData = map<string, DayRecord>

  /** The sum of the amounts of `es`. */
  function SumAmounts(es: seq<Entry>): int {
    if es == [] then 0 else SumAmounts(es[..|es| - 1]) + es[|es| - 1].amount
  }

  /** A record whose incrementally kept `total` matches its entries. */
  predicate RecordConsistent(r: DayRecord) {
    r.total == SumAmounts(r.entries)
  }

  /** Every entry the add-water action creates has a positive amount. */
  predicate AmountsPositive(es: seq<Entry>) {
    forall i :: 0 <= i < |es| ==> es[i].amount > 0
  }

  /** What the ledger always is when only the component writes it: every total
      is the sum of its day's amounts, and every amount is positive. */
  predicate Consistent(l: DailyData) {
    forall key :: key in l ==> RecordConsistent(l[key]) && AmountsPositive(l[key].entries)
  }

  /** `dailyData[key] || { total: 0, entries: [] }`: a day never written reads as
      an empty day. */
  function GetDay(l: DailyData, key: string): (r: DayRecord)
    ensures key in l ==> r == l[key]
    ensures key !in l ==> r.total == 0 && r.entries == [] && RecordConsistent(r)
  {
    if key in l then l[key] else DayRecord(0, [])
  }

  /** The ledger after logging `e` on day `key`: that day's total grows by the
      amount and the entry goes last. */
  function Append(l: DailyData, key: string, e: Entry): DailyData {
    var day := GetDay(l, key);
    l[key := DayRecord(day.total + e.amount, day.entries + [e])]
  }

  /** Logging touches the one day: it gains exactly the entry, last, and its
      total grows by exactly the amount; every other day reads as before. */
  lemma AppendEffect(l: DailyData, key: string, e: Entry)
    ensures var r := Append(l, key, e);
      && r.Keys == l.Keys + {key}
      && GetDay(r, key).total == GetDay(l, key).total + e.amount
      && GetDay(r, key).entries == GetDay(l, key).entries + [e]
      && |GetDay(r, key).entries| == |GetDay(l, key).entries| + 1
      && GetDay(r, key).entries[|GetDay(r, key).entries| - 1] == e
      && forall k :: k != key ==> (k in r <==> k in l) && GetDay(r, k) == GetDay(l, k)
  {
  }

  /** Appending an entry adds its amount to the sum. */
  lemma SumAppend(es: seq<Entry>, e: Entry)
    ensures SumAmounts(es + [e]) == SumAmounts(es) + e.amount
  {
    assert (es + [e])[..|es|] == es;
  }

  /** Logging a positive amount keeps every total equal to the sum of its day's
      amounts. */
  lemma AppendConsistent(l: DailyData, key: string, e: Entry)
    requires Consistent(l) && e.amount > 0
    ensures Consistent(Append(l, key, e))
  {
    SumAppend(GetDay(l, key).entries, e);
  }

  /** The totals of two drinks 500 ml and 400 ml on an empty day. */
  lemma TwoDrinksScenario(l: DailyData, key: string, e1: Entry, e2: Entry)
    requires key !in l
    requires e1.amount == 500 && e2.amount == 400
    ensures var r := Append(Append(l, key, e1), key, e2);
      GetDay(r, key).total == 900 && GetDay(r, key).entries == [e1, e2]
  {
  }

  // ---------------------------------------------------------------------------
  // The colour tier of a calendar cell

  datatype Tier = Empty | Low | Medium | High | GoalMet

  /** The day total a calendar cell reads: `data ? data.total : 0`. */
  function DayTotal(l: DailyData, key: string): int {
    GetDay(l, key).total
  }

  /** The cascade behind a cell's background: only a positive total is coloured;
      reaching the goal wins; otherwise strictly above 1500 and strictly above 1000
      pick the two darker shades. */
  function CellTier(total: int, goal: int): (t: Tier)
    ensures t == Empty <==> total <= 0
    ensures t == GoalMet <==> total > 0 && total >= goal
    ensures t == High <==> total > 0 && total < goal && total > 1500
    ensures t == Medium <==> total > 0 && total < goal && 1000 < total <= 1500
    ensures t == Low <==> 0 < total <= 1000 && total < goal
  {
    if total > 0 then
      if total >= goal then GoalMet
      else if total > 1500 then High
      else if total > 1000 then Medium
      else Low
    else Empty
  }

  /** Positive amounts sum to a positive total exactly when there is one. */
  lemma {:induction false} SumPositive(es: seq<Entry>)
    requires AmountsPositive(es)
    ensures SumAmounts(es) > 0 <==> es != []
    ensures SumAmounts(es) >= 0
  {
    if es != [] {
      SumPositive(es[..|es| - 1]);
    }
  }

  /** In a consistent ledger a day's cell is left uncoloured exactly when nothing
      was logged on it. */
  lemma EmptyTierIffNothingLogged(l: DailyData, key: string, goal: int)
    requires Consistent(l)
    ensures CellTier(DayTotal(l, key), goal) == Empty <==> GetDay(l, key).entries == []
  {
    SumPositive(GetDay(l, key).entries);
  }

  function Rank(t: Tier): nat {
    match t
    case Empty => 0
    case Low => 1
    case Medium => 2
    case High => 3
    case GoalMet => 4
  }

  /** Drinking more never lowers a day's tier; in particular a day stays at
      "goal met" once it has reached it. */
  lemma TierMonotone(total: int, more: int, goal: int)
    requires total <= more
    ensures Rank(CellTier(total, goal)) <= Rank(CellTier(more, goal))
    ensures CellTier(total, goal) == GoalMet ==> CellTier(more, goal) == GoalMet
  {
  }

  /** Exactly the goal counts as met; one millilitre short does not. */
  lemma TierBoundary(goal: int)
    requires goal > 0
    ensures CellTier(goal, goal) == GoalMet
    ensures CellTier(goal - 1, goal) != GoalMet
  {
  }
}
