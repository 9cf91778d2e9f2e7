/**
 * The contact book itself: `Record` (task1.py:27-58, task2.py:114-145) and
 * `AddressBook` (task1.py:65-97, task2.py:152-184). A record's phone list and
 * birthday are updated in place; the book is a Python dict, kept here as the
 * map from names to records plus the keys in insertion order, since that
 * order decides the order of names in the weekly report.
 */
module Contacts {
  import opened Outcomes
  import opened Calendar
  import opened Phones
  import opened Birthdays

  class Record {
    const name: string
    var phones: seq<ValidPhone>
    var birthday: Option<Date>

    /** `Record(name, birthday=None)`: no phones, and the birthday if one is given. */
    constructor (name: string, birthday: Option<Date>)
      requires birthday.Some? ==> ValidDate(birthday.value)
      ensures this.name == name && phones == [] && this.birthday == birthday
    {
      this.name := name;
      phones := [];
      this.birthday := birthday;
    }

    /** `add_phone`: append the phone, or raise with the list untouched. */
    method AddPhone(value: string) returns (outcome: Outcome<string>)
      modifies this`phones
      ensures outcome == if MatchesPhonePattern(value) then Pass else Fail(PhoneError)
      ensures phones == if outcome.Pass? then old(phones) + [Phone(value)] else old(phones)
    {
      var phone := NewPhone(value);
      if phone.Err? {
        return Fail(phone.error);
      }
      phones := phones + [phone.value];
      outcome := Pass;
    }

    /** `remove_phone`: drop the first phone with that value; nothing when there is none. */
    method RemovePhone(value: string)
      modifies this`phones
      ensures phones == RemoveFirst(old(phones), value)
    {
      var i := 0;
      while i < |phones| && phones[i].value != value
        invariant 0 <= i <= |phones|
        invariant forall j :: 0 <= j < i ==> phones[j].value != value
      {
        i := i + 1;
      }
      if i < |phones| {
        phones := phones[..i] + phones[i + 1..];
      }
    }

    /**
     * `edit_phone`: remove the first `previous`, then add `added`. With an
     * invalid `added` the removal has already happened when the error is raised.
     */
    method EditPhone(previous: string, added: string) returns (outcome: Outcome<string>)
      modifies this`phones
      ensures outcome == if MatchesPhonePattern(added) then Pass else Fail(PhoneError)
      ensures phones == RemoveFirst(old(phones), previous) + (if outcome.Pass? then [Phone(added)] else [])
    {
      RemovePhone(previous);
      outcome := AddPhone(added);
    }

    /** `find_phone`: the first phone with that value, or `None` iff there is none. */
    method FindPhone(value: string) returns (r: Option<Phone>)
      ensures r.None? <==> forall j :: 0 <= j < |phones| ==> phones[j].value != value
      ensures r.Some? ==> r.value.value == value && r.value in phones
    {
      for i := 0 to |phones|
        invariant forall j :: 0 <= j < i ==> phones[j].value != value
      {
        if phones[i].value == value {
          return Some(phones[i]);
        }
      }
      return None;
    }

    /** `add_birthday`: replaces any earlier birthday; reading it back gives `d`. */
    method AddBirthday(d: Date)
      requires ValidDate(d)
      modifies this`birthday
      ensures birthday == Some(d)
    {
      birthday := Some(d);
    }
  }

  /** The keys of `order` with every copy of `name` removed. */
  function Without(order: seq<string>, name: string): (r: seq<string>)
    ensures forall k :: k in r <==> k in order && k != name
    ensures name !in order ==> r == order
    ensures |r| <= |order|
  {
    if order == [] then []
    else (if order[0] == name then [] else [order[0]]) + Without(order[1..], name)
  }

  /** Removing a key distributes over concatenation. */
  lemma {:induction false} WithoutAppend(a: seq<string>, b: seq<string>, name: string)
    ensures Without(a + b, name) == Without(a, name) + Without(b, name)
    decreases |a|
  {
    if a == [] {
      assert a + b == b;
    } else {
      var head := if a[0] == name then [] else [a[0]];
      assert (a + b)[0] == a[0] && (a + b)[1..] == a[1..] + b;
      WithoutAppend(a[1..], b, name);
      assert Without(a + b, name) == head + (Without(a[1..], name) + Without(b, name));
      assert head + (Without(a[1..], name) + Without(b, name)) == (head + Without(a[1..], name)) + Without(b, name);
    }
  }

  /** Deleting a key that occurs once keeps the keys before and after it, in their order. */
  lemma WithoutKeepsOrder(p: seq<string>, s: seq<string>, name: string)
    requires name !in p && name !in s
    ensures Without(p + [name] + s, name) == p + s
  {
    WithoutAppend(p + [name], s, name);
    WithoutAppend(p, [name], name);
  }

  /** `Without` keeps a list of distinct keys distinct. */
  lemma {:induction false} WithoutDistinct(order: seq<string>, name: string)
    requires Distinct(order)
    ensures Distinct(Without(order, name))
  {
    if order != [] {
      WithoutDistinct(order[1..], name);
      var rest := Without(order[1..], name);
      assert forall j :: 0 <= j < |rest| ==> rest[j] in order[1..];
      assert order[0] !in order[1..];
    }
  }

  predicate Distinct(s: seq<string>) {
    forall i, j :: 0 <= i < j < |s| ==> s[i] != s[j]
  }

  class AddressBook {
    /** The dict's keys in insertion order. */
    var order: seq<string>
    var data: map<string, Record>

    /** Keys are distinct, `order` lists exactly the keys, and each record sits under its own name. */
    ghost predicate Valid()
      reads this
    {
      && Distinct(order)
      && (forall k :: k in order <==> k in data)
      && (forall k :: k in data ==> data[k].name == k)
    }

    constructor ()
      ensures Valid() && order == [] && data == map[]
    {
      order := [];
      data := map[];
    }

    /** `add_record`: store under the record's name; a second add with that name replaces the first in place. */
    method AddRecord(record: Record)
      requires Valid()
      modifies this
      ensures Valid()
      ensures data == old(data)[record.name := record]
      ensures order == if record.name in old(data) then old(order) else old(order) + [record.name]
    {
      if record.name !in data {
        order := order + [record.name];
      }
      data := data[record.name := record];
    }

    /** `find`: `dict.get`, the record stored under `name`, or `None` iff there is none. */
    function Find(name: string): (r: Option<Record>)
      reads this
      requires Valid()
      ensures r.None? <==> name !in data
      ensures r.Some? ==> r.value == data[name] && r.value.name == name
    {
      if name in data then Some(data[name]) else None
    }

    /** `delete`: remove the entry if present; an absent name leaves the book unchanged. */
    method Delete(name: string)
      requires Valid()
      modifies this
      ensures Valid()
      ensures data == old(data) - {name}
      ensures order == Without(old(order), name)
      ensures name !in old(data) ==> data == old(data) && order == old(order)
    {
      if name in data {
        WithoutDistinct(order, name);
        order := Without(order, name);
        data := data - {name};
      }
    }

    /** What the report reads from the records listed in `keys`, in that order. */
    function EntriesOf(keys: seq<string>): (r: seq<Entry>)
      reads this, data.Values
      requires forall k :: k in keys ==> k in data
      ensures |r| == |keys|
      ensures forall i :: 0 <= i < |keys| ==> r[i] == Entry(data[keys[i]].name, data[keys[i]].birthday)
    {
      if keys == [] then []
      else EntriesOf(keys[..|keys| - 1]) + [Entry(data[keys[|keys| - 1]].name, data[keys[|keys| - 1]].birthday)]
    }

    /** The records in book order, as the report sees them. */
    function Entries(): (r: seq<Entry>)
      reads this, data.Values
      requires Valid()
      ensures |r| == |order|
      ensures forall i :: 0 <= i < |order| ==> r[i] == Entry(order[i], data[order[i]].birthday)
    {
      EntriesOf(order)
    }

    /**
     * `get_birthdays_per_week` with the clock read as `today`: walks the
     * records in book order and accumulates the weekly report, or stops with
     * the error `date.replace` raised.
     */
    method GetBirthdaysPerWeek(today: Date) returns (r: Result<map<string, seq<string>>, DateError>)
      requires Valid() && ValidDate(today)
      ensures r == BirthdaysPerWeek(Entries(), today)
    {
      ghost var entries := Entries();
      var birthdays: map<string, seq<string>> := map[];
      var i := 0;
      while i < |order|
        invariant 0 <= i <= |order|
        invariant BirthdaysPerWeek(entries[..i], today) == Ok(birthdays)
      {
        var record := data[order[i]];
        var next := StepRecord(birthdays, Entry(record.name, record.birthday), today);
        Advance(entries, i, today, birthdays, next);
        if next.Err? {
          assert entries == Entries();
          return next;
        }
        birthdays := next.value;
        i := i + 1;
      }
      assert entries[..i] == entries == Entries();
      r := Ok(birthdays);
    }
  }
}
