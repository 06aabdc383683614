/** The state of the HydroFlow screen and the event handlers that change it.

    Each field is one piece of the component's state. Each method but
    `CalendarGrid` is one event handler, run to completion before the next
    user action; `CalendarGrid` is the memoised month grid. Clock reads
    (`new Date()`, `Date.now()`) and `parseInt` are parameters: `parse` stands
    for `parseInt` and gives `None` for NaN. Persistence to local storage is
    not modelled beyond the values read at start-up. */
module HydroFlow {
  import opened Wrappers
  import Decimal
  import opened Calendar
  import opened Ledger
  import Presets

  const DEFAULT_GOAL := 2500

  /** `parseInt(localStorage.getItem('hydroflow_goal')) || 2500`: NaN and 0 fall
      back to the default; any other number, negative ones included, is kept. */
  function InitialGoal(parsed: Option<int>): (g: int)
    ensures g != 0
    ensures parsed.Some? && parsed.value != 0 ==> g == parsed.value
    ensures parsed.None? || parsed.value == 0 ==> g == DEFAULT_GOAL
    ensures parsed.Some? && parsed.value > 0 ==> g > 0
  {
    if parsed.Some? && parsed.value != 0 then parsed.value else DEFAULT_GOAL
  }

  /** What `handleSaveGoal` accepts: a number, and a positive one. */
  predicate GoalAccepted(parsed: Option<int>) {
    parsed.Some? && parsed.value > 0
  }

  class App {
    var selectedDate: Date
    var dailyData: DailyData
    var customAmount: string
    var dailyGoal: int
    var savedGlasses: seq<int>
    var isEditingGoal: bool
    var tempGoal: string

    /** The selected day is a real calendar day. */
    ghost predicate Valid()
      reads this`selectedDate
    {
      ValidDate(selectedDate)
    }

    /** The invariants the handlers keep (and the defaults give): totals match
        entries, the goal is positive, the saved presets are well-formed. */
    ghost predicate Consistent()
      reads this`dailyData, this`dailyGoal, this`savedGlasses
    {
      Ledger.Consistent(dailyData) && dailyGoal > 0 && Presets.WellFormed(savedGlasses)
    }

    /** Start-up: today is selected; each stored value is used when present and
        readable (`None` stands for an absent or corrupt entry) and replaced by
        its default otherwise. */
    constructor (today: Date, storedData: Option<DailyData>, storedGoal: Option<int>,
                 storedGlasses: Option<seq<int>>)
      requires ValidDate(today)
      ensures Valid()
      ensures selectedDate == today
      ensures dailyData == (if storedData.Some? then storedData.value else map[])
      ensures dailyGoal == InitialGoal(storedGoal)
      ensures savedGlasses == (if storedGlasses.Some? then storedGlasses.value else [])
      ensures customAmount == "" && !isEditingGoal
      ensures tempGoal == Decimal.IntToString(dailyGoal)
      ensures storedData.None? && storedGoal.None? && storedGlasses.None? ==> Consistent()
    {
      selectedDate := today;
      dailyData := if storedData.Some? then storedData.value else map[];
      customAmount := "";
      dailyGoal := InitialGoal(storedGoal);
      savedGlasses := if storedGlasses.Some? then storedGlasses.value else [];
      isEditingGoal := false;
      tempGoal := Decimal.IntToString(InitialGoal(storedGoal));
    }

    /** `currentDocId`: the ledger key of the selected day. */
    function CurrentKey(): string
      reads this`selectedDate
      requires Valid()
    {
      DocId(selectedDate)
    }

    /** `currentData`: the selected day's record, empty if never written. */
    function CurrentDay(): DayRecord
      reads this
      requires Valid()
    {
      GetDay(dailyData, CurrentKey())
    }

    // -------------------------------------------------------------------------
    // The goal

    /** Clicking the goal opens the editor. */
    method BeginEditGoal()
      modifies this`isEditingGoal
      ensures isEditingGoal
    {
      isEditingGoal := true;
    }

    /** Typing in the goal editor. */
    method EditTempGoal(text: string)
      modifies this`tempGoal
      ensures tempGoal == text
    {
      tempGoal := text;
    }

    /** The cancel button closes the editor and puts the current goal back into it. */
    method CancelEditGoal()
      modifies this`isEditingGoal, this`tempGoal
      ensures !isEditingGoal && tempGoal == Decimal.IntToString(dailyGoal)
    {
      isEditingGoal := false;
      tempGoal := Decimal.IntToString(dailyGoal);
    }

    /** `handleSaveGoal`: a positive number is committed and closes the editor;
        anything else leaves both the goal and the editor as they were. */
    method SaveGoal(parse: string -> Option<int>)
      modifies this`dailyGoal, this`isEditingGoal
      ensures GoalAccepted(parse(tempGoal)) ==> dailyGoal == parse(tempGoal).value && !isEditingGoal
      ensures !GoalAccepted(parse(tempGoal)) ==>
        dailyGoal == old(dailyGoal) && isEditingGoal == old(isEditingGoal)
      ensures old(dailyGoal) > 0 ==> dailyGoal > 0
      ensures old(Consistent()) ==> Consistent()
    {
      var newGoal := parse(tempGoal);
      if newGoal.Some? && newGoal.value > 0 {
        dailyGoal := newGoal.value;
        isEditingGoal := false;
      }
    }

    // -------------------------------------------------------------------------
    // Presets

    /** Typing in the custom-amount field. */
    method EditCustomAmount(text: string)
      modifies this`customAmount
      ensures customAmount == text
    {
      customAmount := text;
    }

    /** `handleSavePreset`: an invalid amount changes nothing; an amount already
        saved or built in only clears the field; a new one is added, the list
        re-sorted, and the field cleared. */
    method SavePreset(parse: string -> Option<int>)
      modifies this`savedGlasses, this`customAmount
      ensures savedGlasses == Presets.SaveList(old(savedGlasses), parse(old(customAmount)))
      ensures customAmount ==
        if Presets.ClassifySave(old(savedGlasses), parse(old(customAmount))) == Presets.Invalid
        then old(customAmount) else ""
      ensures old(Presets.WellFormed(savedGlasses)) ==> Presets.WellFormed(savedGlasses)
      ensures old(Consistent()) ==> Consistent()
    {
      ghost var before := savedGlasses;
      ghost var parsed := parse(customAmount);
      if Presets.WellFormed(before) {
        Presets.SaveKeepsWellFormed(before, parsed);
      }
      var amount := parse(customAmount);
      if amount.None? || amount.value <= 0 {
        return;
      }
      if amount.value in savedGlasses || amount.value in Presets.DEFAULTS {
        customAmount := "";
        return;
      }
      var newGlasses := Presets.Sort(savedGlasses + [amount.value]);
      savedGlasses := newGlasses;
      customAmount := "";
    }

    /** `handleDeletePreset`: every occurrence of the amount leaves the saved list. */
    method DeletePreset(amount: int)
      modifies this`savedGlasses
      ensures savedGlasses == Presets.Without(old(savedGlasses), amount)
      ensures old(Presets.WellFormed(savedGlasses)) ==> Presets.WellFormed(savedGlasses)
      ensures old(Consistent()) ==> Consistent()
    {
      if Presets.WellFormed(savedGlasses) {
        Presets.DeleteKeepsWellFormed(savedGlasses, amount);
      }
      savedGlasses := Presets.Without(savedGlasses, amount);
    }

    // -------------------------------------------------------------------------
    // Logging water

    /** `handleAddWater`: a non-positive amount changes nothing; otherwise the
        selected day's total grows by the amount and the new entry is appended. */
    method AddWater(amount: int, timestamp: string, id: string)
      requires Valid()
      modifies this`dailyData
      ensures amount <= 0 ==> dailyData == old(dailyData)
      ensures amount > 0 ==> dailyData == Append(old(dailyData), CurrentKey(), Entry(amount, timestamp, id))
      ensures amount > 0 ==> CurrentDay().total == old(CurrentDay().total) + amount
      ensures amount > 0 ==> CurrentDay().entries == old(CurrentDay().entries) + [Entry(amount, timestamp, id)]
      ensures old(Ledger.Consistent(dailyData)) ==> Ledger.Consistent(dailyData)
      ensures old(Consistent()) ==> Consistent()
    {
      if amount <= 0 {
        return;
      }
      var key := CurrentKey();
      var newEntry := Entry(amount, timestamp, id);
      AppendEffect(dailyData, key, newEntry);
      if Ledger.Consistent(dailyData) {
        AppendConsistent(dailyData, key, newEntry);
      }
      dailyData := Append(dailyData, key, newEntry);
      assert CurrentKey() == key;
    }

    /** `handleCustomSubmit`: a number is passed on to `AddWater` (which ignores
        a non-positive one) and the field is cleared; NaN changes nothing. */
    method CustomSubmit(parse: string -> Option<int>, timestamp: string, id: string)
      requires Valid()
      modifies this`dailyData, this`customAmount
      ensures var p := parse(old(customAmount));
        dailyData == if p.Some? && p.value > 0
                     then Append(old(dailyData), CurrentKey(), Entry(p.value, timestamp, id))
                     else old(dailyData)
      ensures customAmount == if parse(old(customAmount)).Some? then "" else old(customAmount)
      ensures old(Ledger.Consistent(dailyData)) ==> Ledger.Consistent(dailyData)
      ensures old(Consistent()) ==> Consistent()
    {
      var amount := parse(customAmount);
      if amount.Some? {
        AddWater(amount.value, timestamp, id);
        customAmount := "";
      }
    }

    // -------------------------------------------------------------------------
    // The selected date

    /** `changeDate(days)`: the selection moves by that many calendar days. */
    method ChangeDate(days: int)
      requires Valid()
      modifies this`selectedDate
      ensures Valid()
      ensures selectedDate == AddDays(old(selectedDate), days)
      ensures DayNumber(selectedDate) == DayNumber(old(selectedDate)) + days
    {
      selectedDate := AddDays(selectedDate, days);
    }

    /** Clicking a calendar cell selects its date. */
    method SelectDate(date: Date)
      requires ValidDate(date)
      modifies this`selectedDate
      ensures Valid() && selectedDate == date
    {
      selectedDate := date;
    }

    /** `calendarGrid`, the value the component recomputes whenever the selected
        day changes (it is not an event handler): the grid of that day's month. */
    method CalendarGrid() returns (days: seq<Option<Date>>)
      requires Valid()
      ensures |days| == FirstDayOfMonth(selectedDate.year, selectedDate.month)
                        + DaysInMonth(selectedDate.year, selectedDate.month)
      ensures forall k :: 0 <= k < FirstDayOfMonth(selectedDate.year, selectedDate.month) ==>
        days[k] == None
      ensures forall i :: 1 <= i <= DaysInMonth(selectedDate.year, selectedDate.month) ==>
        days[FirstDayOfMonth(selectedDate.year, selectedDate.month) + i - 1]
          == Some(Date(JsYear(selectedDate.year), selectedDate.month, i))
      ensures forall k :: 0 <= k < |days| && days[k].Some? ==>
        && ValidDate(days[k].value) && Weekday(days[k].value) == k % 7
        && days[k].value.year == JsYear(selectedDate.year)
        && days[k].value.month == selectedDate.month
    {
      days := BuildCalendarGrid(selectedDate.year, selectedDate.month);
    }
  }

  /** Stepping forward one day and back again returns to the same day. */
  lemma ChangeDateRoundTrip(d: Date)
    requires ValidDate(d)
    ensures AddDays(AddDays(d, 1), -1) == d
  {
    AddDaysUnique(AddDays(d, 1), -1, d);
  }
}
