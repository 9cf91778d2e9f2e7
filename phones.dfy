/**
 * The `Phone` field (task1.py:15-19, task2.py:102-106) and the first-match
 * scans that `Record` runs over its list of phones.
 */
module Phones {
  import opened Outcomes

  predicate IsDigit(c: char) {
    '0' <= c <= '9'
  }

  predicate IsTenDigits(s: string) {
    |s| == 10 && forall i :: 0 <= i < |s| ==> IsDigit(s[i])
  }

  /**
   * `re.match(r"^\d{10}$", s)` succeeds: ten digits, and, because `$` also
   * matches just before a final newline, ten digits followed by one "\n".
   */
  predicate MatchesPhonePattern(s: string) {
    IsTenDigits(s) || (|s| == 11 && s[10] == '\n' && IsTenDigits(s[..10]))
  }

  datatype Phone = Phone(value: string)

  const PhoneError := "Phone number must be 10 digits."

  /** `Phone(value)`: the constructor raises `ValueError(PhoneError)` on a non-matching value. */
  function NewPhone(value: string): (r: Result<Phone, string>)
    ensures r.Ok? <==> MatchesPhonePattern(value)
    ensures r.Ok? ==> r.value.value == value
    ensures r.Err? ==> r.error == PhoneError
  {
    if MatchesPhonePattern(value) then Ok(Phone(value)) else Err(PhoneError)
  }

  /** The accepted values are exactly the ten-digit strings, with or without one trailing newline. */
  lemma PatternAcceptsTenDigits(s: string)
    ensures MatchesPhonePattern(s) <==> exists t :: IsTenDigits(t) && (s == t || s == t + "\n")
  {
  }

  /** Ten digits plus a newline pass, nine or eleven digits do not. */
  lemma PatternEdgeCases()
    ensures MatchesPhonePattern("0123456789\n")
    ensures !MatchesPhonePattern("012345678")
    ensures !MatchesPhonePattern("01234567890")
    ensures !MatchesPhonePattern("0123456789\n\n")
    ensures !MatchesPhonePattern("012345678a")
  {
    assert "0123456789\n"[..10] == "0123456789";
    assert !IsDigit("012345678a"[9]);
  }

  /** Index of the first phone whose value is `value`, if any. */
  function IndexOf(phones: seq<Phone>, value: string): (r: Option<nat>)
    ensures r.Some? ==> r.value < |phones| && phones[r.value].value == value
    ensures r.Some? ==> forall j :: 0 <= j < r.value ==> phones[j].value != value
    ensures r.None? <==> forall j :: 0 <= j < |phones| ==> phones[j].value != value
  {
    if phones == [] then None
    else if phones[0].value == value then Some(0)
    else match IndexOf(phones[1..], value)
      case None => None
      case Some(i) => Some(i + 1)
  }

  /** A phone as a `Record` stores it: only values that passed the pattern check become phones. */
  type ValidPhone = p: Phone | MatchesPhonePattern(p.value) witness Phone("0000000000")

  /** `remove_phone(value)`: the list without its first phone of that value. */
  function RemoveFirst(phones: seq<Phone>, value: string): seq<Phone>
  {
    match IndexOf(phones, value)
    case None => phones
    case Some(i) => phones[..i] + phones[i + 1..]
  }

  /**
   * Removing takes away exactly one copy of `Phone(value)` when there is one
   * and nothing otherwise, and the phones before and after the removed one
   * keep their order.
   */
  lemma RemoveFirstSpec(phones: seq<Phone>, value: string)
    ensures multiset(RemoveFirst(phones, value)) == multiset(phones) - multiset{Phone(value)}
    ensures IndexOf(phones, value).None? ==> RemoveFirst(phones, value) == phones
    ensures IndexOf(phones, value).Some? ==>
              var i := IndexOf(phones, value).value;
              |RemoveFirst(phones, value)| == |phones| - 1 &&
              phones == RemoveFirst(phones, value)[..i] + [Phone(value)] + RemoveFirst(phones, value)[i..]
  {
    match IndexOf(phones, value)
    case None =>
      assert Phone(value) !in multiset(phones);
    case Some(i) =>
      assert phones[i] == Phone(value);
      assert RemoveFirst(phones, value) == phones[..i] + phones[i + 1..];
      RemoveAtSpec(phones, i);
  }

  /** Dropping the phone at index `i` removes one copy of it and can be undone by reinserting it there. */
  lemma RemoveAtSpec(phones: seq<Phone>, i: nat)
    requires i < |phones|
    ensures var r := phones[..i] + phones[i + 1..];
            && |r| == |phones| - 1
            && phones == r[..i] + [phones[i]] + r[i..]
            && multiset(r) == multiset(phones) - multiset{phones[i]}
  {
    var r := phones[..i] + phones[i + 1..];
    assert r[..i] == phones[..i];
    assert r[i..] == phones[i + 1..];
    assert phones == phones[..i] + [phones[i]] + phones[i + 1..];
  }

  /** The first phone of a list is the one its own value removes. */
  lemma RemoveFirstOfHead(phones: seq<Phone>)
    requires phones != []
    ensures RemoveFirst(phones, phones[0].value) == phones[1..]
  {
  }

  /**
   * `edit_phone(previous, added)` with a valid `added` leaves `added` findable,
   * and `previous` is gone exactly when it occurred at most once and differs from `added`.
   */
  lemma EditThenFind(phones: seq<Phone>, previous: string, added: string)
    requires MatchesPhonePattern(added)
    ensures IndexOf(RemoveFirst(phones, previous) + [Phone(added)], added).Some?
    ensures IndexOf(RemoveFirst(phones, previous) + [Phone(added)], previous).None? <==>
              previous != added && Occurrences(phones, previous) <= 1
  {
    var edited := RemoveFirst(phones, previous) + [Phone(added)];
    assert edited[|edited| - 1].value == added;
    EditedCount(phones, previous, added);
    IndexOfAbsent(edited, previous);
  }

  /** After the edit, `previous` occurs one time fewer (if it occurred at all), plus once more if it is `added`. */
  lemma EditedCount(phones: seq<Phone>, previous: string, added: string)
    ensures var edited := RemoveFirst(phones, previous) + [Phone(added)];
            multiset(edited)[Phone(previous)] ==
              Occurrences(phones, previous) - (if Occurrences(phones, previous) > 0 then 1 else 0)
              + (if previous == added then 1 else 0)
  {
    RemoveFirstSpec(phones, previous);
    OccurrencesCount(phones, previous);
    var edited := RemoveFirst(phones, previous) + [Phone(added)];
    assert multiset(edited) == multiset(RemoveFirst(phones, previous)) + multiset{Phone(added)};
  }

  /** The scan finds nothing exactly when no copy of the phone is in the list. */
  lemma IndexOfAbsent(phones: seq<Phone>, value: string)
    ensures IndexOf(phones, value).None? <==> multiset(phones)[Phone(value)] == 0
  {
    if IndexOf(phones, value).None? {
      forall j | 0 <= j < |phones| ensures phones[j] != Phone(value) {
        assert phones[j].value != value;
      }
      assert Phone(value) !in phones;
    } else {
      var i := IndexOf(phones, value).value;
      assert phones[i] == Phone(value);
      assert phones[i] in multiset(phones);
    }
  }

  /** Number of phones whose value is `value`. */
  function Occurrences(phones: seq<Phone>, value: string): nat
  {
    if phones == [] then 0
    else Occurrences(phones[1..], value) + (if phones[0].value == value then 1 else 0)
  }

  lemma {:induction false} OccurrencesCount(phones: seq<Phone>, value: string)
    ensures Occurrences(phones, value) == multiset(phones)[Phone(value)]
  {
    if phones != [] {
      OccurrencesCount(phones[1..], value);
      assert phones == [phones[0]] + phones[1..];
    }
  }
}
