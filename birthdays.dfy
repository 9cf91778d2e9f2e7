/**
 * The birthday window of `AddressBook.get_birthdays_per_week`
 * (task1.py:76-97, task2.py:163-184) with the clock replaced by a `today`
 * parameter: where each birthday falls next, its weekday label, and the
 * mapping from labels to names that the loop accumulates.
 */
module Birthdays {
  import opened Outcomes
  import opened Calendar

  /** What the loop reads from one record: its name and its birthday, if any. */
  datatype Entry = Entry(name: string, birthday: Option<Date>)

  /** The anniversary the code settles on, and `(anniversary - today).days`. */
  datatype Occurrence = Occurrence(date: Date, delta: int)

  /**
   * The birthday moved into today's year, or into the next year when that date
   * has already passed. Either `replace` may raise, which ends the whole call.
   */
  function NextOccurrence(birthday: Date, today: Date): (r: Result<Occurrence, DateError>)
    requires ValidDate(today)
    ensures r.Ok? ==> ValidDate(r.value.date)
    ensures r.Ok? ==> r.value.date.month == birthday.month && r.value.date.day == birthday.day
    ensures r.Ok? ==> r.value.delta == Ordinal(r.value.date) - Ordinal(today)
  {
    match ReplaceYear(birthday, today.year)
    case Err(e) => Err(e)
    case Ok(thisYear) =>
      var delta := Ordinal(thisYear) - Ordinal(today);
      if delta < 0 then
        match ReplaceYear(thisYear, today.year + 1)
        case Err(e) => Err(e)
        case Ok(nextYear) => Ok(Occurrence(nextYear, Ordinal(nextYear) - Ordinal(today)))
      else
        Ok(Occurrence(thisYear, delta))
  }

  /**
   * When the code finds an occurrence, it is the earliest date on or after
   * `today` with the birthday's month and day: `delta` is never negative and
   * no anniversary in any year lies between today and it.
   */
  lemma NextOccurrenceIsEarliest(birthday: Date, today: Date, y: int)
    requires ValidDate(today)
    requires NextOccurrence(birthday, today).Ok?
    requires ValidDate(Date(y, birthday.month, birthday.day))
    requires Ordinal(today) <= Ordinal(Date(y, birthday.month, birthday.day))
    ensures 0 <= NextOccurrence(birthday, today).value.delta
    ensures NextOccurrence(birthday, today).value.delta <= Ordinal(Date(y, birthday.month, birthday.day)) - Ordinal(today)
  {
    var o := NextOccurrence(birthday, today).value;
    var other := Date(y, birthday.month, birthday.day);
    var thisYear := Date(today.year, birthday.month, birthday.day);
    OrdinalOrder(today, o.date);
    OrdinalOrder(today, other);
    OrdinalOrder(o.date, other);
    if o.date.year == today.year + 1 {
      OrdinalOrder(thisYear, today);
    }
  }

  /**
   * The cases in which the code raises instead: a 29 February birthday when
   * today's year is not a leap year, or when it is but today is already past
   * February (the roll-over lands in a common year); and any birthday already
   * passed in year 9999, whose roll-over year does not exist.
   */
  lemma NextOccurrenceFails(birthday: Date, today: Date)
    requires ValidDate(today) && ValidDate(birthday)
    ensures NextOccurrence(birthday, today).Err? <==>
              || (birthday.month == 2 && birthday.day == 29 && (!IsLeap(today.year) || today.month > 2))
              || (today.year == MaxYear && Precedes(Date(today.year, birthday.month, birthday.day), today))
  {
    var thisYear := Date(today.year, birthday.month, birthday.day);
    if ValidDate(thisYear) {
      OrdinalOrder(thisYear, today);
      if birthday.month == 2 && birthday.day == 29 && IsLeap(today.year) && today.month > 2 {
        assert Precedes(thisYear, today);
        assert !IsLeap(today.year + 1);
      }
    }
  }

  const DayNames: seq<string> := ["Monday", "Tuesday", "Wednesday", "Thursday", "Friday", "Saturday", "Sunday"]

  /** The labels the report can use: Monday to Friday. */
  const Workdays: seq<string> := ["Monday", "Tuesday", "Wednesday", "Thursday", "Friday"]

  /**
   * `calendar.day_name[date.weekday()]`, with Saturday and Sunday relabelled
   * "Monday": the weekday name for Monday to Friday, "Monday" for a weekend day.
   */
  function Label(d: Date): (r: string)
    requires ValidDate(d)
    ensures r in Workdays
    ensures Weekday(d) < 5 ==> r == DayNames[Weekday(d)]
    ensures Weekday(d) >= 5 ==> r == "Monday"
  {
    var dayOfWeek := DayNames[Weekday(d)];
    assert Weekday(d) < 5 ==> dayOfWeek == Workdays[Weekday(d)];
    if dayOfWeek == "Saturday" || dayOfWeek == "Sunday" then "Monday" else dayOfWeek
  }

  /** The entry is listed: it has a birthday whose occurrence is fewer than 7 days away. */
  predicate Qualifies(e: Entry, today: Date)
    requires ValidDate(today)
  {
    && e.birthday.Some?
    && NextOccurrence(e.birthday.value, today).Ok?
    && 0 <= NextOccurrence(e.birthday.value, today).value.delta < 7
  }

  /** The entry makes the call raise. */
  predicate Fails(e: Entry, today: Date)
    requires ValidDate(today)
  {
    e.birthday.Some? && NextOccurrence(e.birthday.value, today).Err?
  }

  /** The label a listed entry goes under. */
  function LabelOf(e: Entry, today: Date): (r: string)
    requires ValidDate(today) && Qualifies(e, today)
    ensures r in Workdays
  {
    Label(NextOccurrence(e.birthday.value, today).value.date)
  }

  /** The entry is listed under the weekday label `day`. */
  predicate ListedUnder(e: Entry, day: string, today: Date)
    requires ValidDate(today)
  {
    Qualifies(e, today) && LabelOf(e, today) == day
  }

  /** `birthdays[label].append(name)` on a `defaultdict(list)`. */
  function Append(birthdays: map<string, seq<string>>, day: string, name: string): map<string, seq<string>>
  {
    birthdays[day := (if day in birthdays then birthdays[day] else []) + [name]]
  }

  /** One iteration of the loop over the records. */
  function Step(birthdays: map<string, seq<string>>, e: Entry, today: Date): Result<map<string, seq<string>>, DateError>
    requires ValidDate(today)
  {
    if e.birthday.None? then Ok(birthdays)
    else match NextOccurrence(e.birthday.value, today)
      case Err(err) => Err(err)
      case Ok(o) =>
        if 0 <= o.delta < 7 then Ok(Append(birthdays, Label(o.date), e.name)) else Ok(birthdays)
  }

  /**
   * The body of the loop for one record: move the birthday into this or next
   * year, and append the name under its weekday when it is fewer than 7 days away.
   */
  method StepRecord(birthdays: map<string, seq<string>>, e: Entry, today: Date)
      returns (r: Result<map<string, seq<string>>, DateError>)
    requires ValidDate(today)
    ensures r == Step(birthdays, e, today)
  {
    r := Ok(birthdays);
    if e.birthday.Some? {
      var occurrence := NextOccurrence(e.birthday.value, today);
      if occurrence.Err? {
        return Err(occurrence.error);
      }
      var delta := occurrence.value.delta;
      if 0 <= delta < 7 {
        var day := Label(occurrence.value.date);
        r := Ok(Append(birthdays, day, e.name));
      }
    }
  }

  /**
   * The result of `get_birthdays_per_week` over the records in book order:
   * the loop's state after the last entry, or the first error raised.
   */
  function BirthdaysPerWeek(entries: seq<Entry>, today: Date): Result<map<string, seq<string>>, DateError>
    requires ValidDate(today)
    decreases |entries|
  {
    if entries == [] then Ok(map[])
    else match BirthdaysPerWeek(entries[..|entries| - 1], today)
      case Err(err) => Err(err)
      case Ok(birthdays) => Step(birthdays, entries[|entries| - 1], today)
  }

  /** Reference definition: the listed names under `day`, in book order. */
  function NamesFor(entries: seq<Entry>, day: string, today: Date): seq<string>
    requires ValidDate(today)
    decreases |entries|
  {
    if entries == [] then []
    else
      var last := entries[|entries| - 1];
      NamesFor(entries[..|entries| - 1], day, today)
        + (if ListedUnder(last, day, today) then [last.name] else [])
  }

  /**
   * One more entry advances the fold by one `Step`; an error there is the
   * result for the whole list.
   */
  lemma Advance(entries: seq<Entry>, i: nat, today: Date, birthdays: map<string, seq<string>>,
                next: Result<map<string, seq<string>>, DateError>)
    requires ValidDate(today) && i < |entries|
    requires BirthdaysPerWeek(entries[..i], today) == Ok(birthdays)
    requires next == Step(birthdays, entries[i], today)
    ensures next.Ok? ==> BirthdaysPerWeek(entries[..i + 1], today) == next
    ensures next.Err? ==> BirthdaysPerWeek(entries, today) == next
  {
    assert entries[..i + 1][..i] == entries[..i];
    if next.Err? {
      ErrorPersists(entries, i + 1, today);
    }
  }

  /** An error raised for one entry ends the call with that error, whatever follows. */
  lemma {:induction false} ErrorPersists(entries: seq<Entry>, n: nat, today: Date)
    requires ValidDate(today) && n <= |entries|
    requires BirthdaysPerWeek(entries[..n], today).Err?
    ensures BirthdaysPerWeek(entries, today) == BirthdaysPerWeek(entries[..n], today)
    decreases |entries| - n
  {
    if n < |entries| {
      assert entries[..n + 1][..n] == entries[..n];
      ErrorPersists(entries, n + 1, today);
    } else {
      assert entries[..n] == entries;
    }
  }

  /** The call succeeds iff no entry's birthday makes `date.replace` raise. */
  lemma {:induction false} BirthdaysPerWeekOk(entries: seq<Entry>, today: Date)
    requires ValidDate(today)
    ensures BirthdaysPerWeek(entries, today).Ok? <==> forall i :: 0 <= i < |entries| ==> !Fails(entries[i], today)
  {
    if entries != [] {
      var prefix := entries[..|entries| - 1];
      BirthdaysPerWeekOk(prefix, today);
      assert forall i :: 0 <= i < |prefix| ==> prefix[i] == entries[i];
    }
  }

  /**
   * On success, the list under each label is exactly the reference list:
   * the listed names with that day label, in book order; labels with no name are
   * absent rather than mapped to an empty list.
   */
  lemma {:induction false} BirthdaysPerWeekContents(entries: seq<Entry>, today: Date, day: string)
    requires ValidDate(today) && BirthdaysPerWeek(entries, today).Ok?
    ensures var birthdays := BirthdaysPerWeek(entries, today).value;
            && (day in birthdays ==> birthdays[day] == NamesFor(entries, day, today) && birthdays[day] != [])
            && (day !in birthdays ==> NamesFor(entries, day, today) == [])
  {
    if entries != [] {
      BirthdaysPerWeekContents(entries[..|entries| - 1], today, day);
    }
  }

  /** A name is listed under `day` iff some entry with that name is listed under `day`. */
  lemma NamesForMembers(entries: seq<Entry>, day: string, today: Date, name: string)
    requires ValidDate(today)
    ensures name in NamesFor(entries, day, today) <==>
              exists i :: 0 <= i < |entries| && entries[i].name == name && ListedUnder(entries[i], day, today)
  {
    if name in NamesFor(entries, day, today) {
      var i := NamesForSource(entries, day, today, name);
    }
    if exists i :: 0 <= i < |entries| && entries[i].name == name && ListedUnder(entries[i], day, today) {
      var i :| 0 <= i < |entries| && entries[i].name == name && ListedUnder(entries[i], day, today);
      var p := NamesForIncludes(entries, day, today, i);
    }
  }

  /** Every listed name comes from an entry listed under `day`. */
  lemma {:induction false} NamesForSource(entries: seq<Entry>, day: string, today: Date, name: string) returns (i: nat)
    requires ValidDate(today) && name in NamesFor(entries, day, today)
    ensures i < |entries| && entries[i].name == name && ListedUnder(entries[i], day, today)
    decreases |entries|
  {
    var prefix := entries[..|entries| - 1];
    var last := entries[|entries| - 1];
    if name in NamesFor(prefix, day, today) {
      i := NamesForSource(prefix, day, today, name);
      assert entries[i] == prefix[i];
    } else {
      i := |entries| - 1;
    }
  }

  /** Every entry listed under `day` has its name in the list, at some position. */
  lemma {:induction false} NamesForIncludes(entries: seq<Entry>, day: string, today: Date, i: nat) returns (p: nat)
    requires ValidDate(today) && i < |entries| && ListedUnder(entries[i], day, today)
    ensures p < |NamesFor(entries, day, today)| && NamesFor(entries, day, today)[p] == entries[i].name
    decreases |entries|
  {
    var prefix := entries[..|entries| - 1];
    if i == |entries| - 1 {
      p := |NamesFor(prefix, day, today)|;
    } else {
      assert prefix[i] == entries[i];
      p := NamesForIncludes(prefix, day, today, i);
    }
  }

  /** Every label used is a weekday name from Monday to Friday. */
  lemma BirthdaysPerWeekLabels(entries: seq<Entry>, today: Date)
    requires ValidDate(today) && BirthdaysPerWeek(entries, today).Ok?
    ensures forall day :: day in BirthdaysPerWeek(entries, today).value ==> day in Workdays
  {
  }

  /**
   * A name appears in the result iff one of the entries carrying it has a
   * birthday whose next occurrence is fewer than 7 days away; entries without
   * a birthday never contribute.
   */
  lemma BirthdaysPerWeekListed(entries: seq<Entry>, today: Date, name: string)
    requires ValidDate(today) && BirthdaysPerWeek(entries, today).Ok?
    ensures (exists day :: day in BirthdaysPerWeek(entries, today).value && name in BirthdaysPerWeek(entries, today).value[day])
            <==> exists i :: 0 <= i < |entries| && entries[i].name == name && Qualifies(entries[i], today)
  {
    var birthdays := BirthdaysPerWeek(entries, today).value;
    if exists i :: 0 <= i < |entries| && entries[i].name == name && Qualifies(entries[i], today) {
      var i :| 0 <= i < |entries| && entries[i].name == name && Qualifies(entries[i], today);
      var day := LabelOf(entries[i], today);
      NamesForMembers(entries, day, today, name);
      BirthdaysPerWeekContents(entries, today, day);
    }
    if exists day :: day in birthdays && name in birthdays[day] {
      var day :| day in birthdays && name in birthdays[day];
      BirthdaysPerWeekContents(entries, today, day);
      NamesForMembers(entries, day, today, name);
    }
  }

  /** The result is the empty mapping iff no entry qualifies. */
  lemma BirthdaysPerWeekEmpty(entries: seq<Entry>, today: Date)
    requires ValidDate(today) && BirthdaysPerWeek(entries, today).Ok?
    ensures BirthdaysPerWeek(entries, today).value == map[] <==> forall i :: 0 <= i < |entries| ==> !Qualifies(entries[i], today)
  {
    var birthdays := BirthdaysPerWeek(entries, today).value;
    if exists i :: 0 <= i < |entries| && Qualifies(entries[i], today) {
      var i :| 0 <= i < |entries| && Qualifies(entries[i], today);
      BirthdaysPerWeekListed(entries, today, entries[i].name);
    }
    if birthdays != map[] {
      var day :| day in birthdays;
      BirthdaysPerWeekContents(entries, today, day);
      BirthdaysPerWeekListed(entries, today, birthdays[day][0]);
    }
  }

  /**
   * Within one label, names keep book order: when entries `i < j` both land
   * under `day`, the name of `i` is listed before the name of `j`.
   */
  lemma {:induction false} NamesForInOrder(entries: seq<Entry>, day: string, today: Date, i: int, j: int)
    requires ValidDate(today) && 0 <= i < j < |entries|
    requires ListedUnder(entries[i], day, today) && ListedUnder(entries[j], day, today)
    ensures exists p, q :: 0 <= p < q < |NamesFor(entries, day, today)|
              && NamesFor(entries, day, today)[p] == entries[i].name
              && NamesFor(entries, day, today)[q] == entries[j].name
  {
    var prefix := entries[..|entries| - 1];
    var names := NamesFor(entries, day, today);
    assert prefix[i] == entries[i];
    if j == |entries| - 1 {
      var p := NamesForIncludes(prefix, day, today, i);
      assert names[p] == entries[i].name;
      assert names[|NamesFor(prefix, day, today)|] == entries[j].name;
    } else {
      assert prefix[j] == entries[j];
      NamesForInOrder(prefix, day, today, i, j);
      var p, q :| 0 <= p < q < |NamesFor(prefix, day, today)|
                  && NamesFor(prefix, day, today)[p] == entries[i].name
                  && NamesFor(prefix, day, today)[q] == entries[j].name;
      assert names[p] == entries[i].name && names[q] == entries[j].name;
    }
  }

  /** A Saturday birthday in the window is listed under "Monday" (reference day Monday 2024-06-10). */
  lemma WeekendGoesToMonday()
    ensures BirthdaysPerWeek([Entry("john", Some(Date(1990, 6, 15)))], Date(2024, 6, 10))
            == Ok(map["Monday" := ["john"]])
  {
    var today := Date(2024, 6, 10);
    var entries := [Entry("john", Some(Date(1990, 6, 15)))];
    assert NextOccurrence(Date(1990, 6, 15), today) == Ok(Occurrence(Date(2024, 6, 15), 5));
    assert Weekday(Date(2024, 6, 15)) == 5;
    assert Label(Date(2024, 6, 15)) == "Monday";
    assert entries[..0] == [];
    assert BirthdaysPerWeek(entries[..0], today) == Ok(map[]);
    assert [] + ["john"] == ["john"];
    assert Step(map[], entries[0], today) == Ok(map["Monday" := ["john"]]);
  }

  /** On 2024-12-31 a 2 January birthday rolls into 2025: two days away, a Thursday. */
  lemma YearRollover()
    ensures NextOccurrence(Date(1990, 1, 2), Date(2024, 12, 31)) == Ok(Occurrence(Date(2025, 1, 2), 2))
    ensures BirthdaysPerWeek([Entry("ann", Some(Date(1990, 1, 2)))], Date(2024, 12, 31))
            == Ok(map["Thursday" := ["ann"]])
  {
    var today := Date(2024, 12, 31);
    var entries := [Entry("ann", Some(Date(1990, 1, 2)))];
    assert Ordinal(Date(2024, 1, 2)) - Ordinal(today) == -364;
    assert Ordinal(Date(2025, 1, 2)) - Ordinal(today) == 2;
    assert Weekday(Date(2025, 1, 2)) == 3;
    assert Label(Date(2025, 1, 2)) == "Thursday";
    assert entries[..0] == [];
    assert BirthdaysPerWeek(entries[..0], today) == Ok(map[]);
    assert [] + ["ann"] == ["ann"];
    assert Step(map[], entries[0], today) == Ok(map["Thursday" := ["ann"]]);
  }
}
