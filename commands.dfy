/**
 * The command layer of task2.py: `parse_input` (task2.py:16-21) and the
 * handlers `add_contact`, `change_phone`, `get_phone` and `show_birthday`
 * (task2.py:23-93). The `input_error` decorator turns the `ValueError`s they
 * raise into "Error: <message>" replies; here each handler returns that reply
 * directly.
 */
module Commands {
  import opened Outcomes
  import opened Calendar
  import opened Phones
  import opened Contacts

  /** `str.isspace()`: the characters Python's `str.split()` and `str.strip()` treat as whitespace. */
  predicate IsSpace(c: char) {
    || c == ' '
    || '\t' <= c <= '\r'
    || '\U{1C}' <= c <= '\U{1F}'
    || c == '\U{85}' || c == '\U{A0}' || c == '\U{1680}'
    || '\U{2000}' <= c <= '\U{200A}'
    || c == '\U{2028}' || c == '\U{2029}' || c == '\U{202F}' || c == '\U{205F}' || c == '\U{3000}'
  }

  /** `not s.strip()`: the input holds nothing but whitespace. */
  predicate IsBlank(s: string) {
    forall i :: 0 <= i < |s| ==> IsSpace(s[i])
  }

  /** Length of the run of non-whitespace characters at the start of `s`. */
  function TokenLength(s: string): (n: nat)
    ensures n <= |s|
    ensures forall i :: 0 <= i < n ==> !IsSpace(s[i])
    ensures n < |s| ==> IsSpace(s[n])
  {
    if s == [] || IsSpace(s[0]) then 0 else 1 + TokenLength(s[1..])
  }

  predicate IsToken(t: string) {
    t != [] && forall i :: 0 <= i < |t| ==> !IsSpace(t[i])
  }

  /** `s.split()`: the maximal runs of non-whitespace characters, in order. */
  function Split(s: string): (tokens: seq<string>)
    ensures forall k :: 0 <= k < |tokens| ==> IsToken(tokens[k])
    decreases |s|
  {
    if s == [] then []
    else if IsSpace(s[0]) then Split(s[1..])
    else
      var n := TokenLength(s);
      [s[..n]] + Split(s[n..])
  }

  /** The characters of `s` that are not whitespace. */
  function NonSpace(s: string): string {
    if s == [] then [] else (if IsSpace(s[0]) then [] else [s[0]]) + NonSpace(s[1..])
  }

  function Concat(tokens: seq<string>): string {
    if tokens == [] then [] else tokens[0] + Concat(tokens[1..])
  }

  lemma {:induction false} NonSpaceAppend(a: string, b: string)
    ensures NonSpace(a + b) == NonSpace(a) + NonSpace(b)
  {
    if a != [] {
      assert (a + b)[1..] == a[1..] + b;
      NonSpaceAppend(a[1..], b);
    } else {
      assert a + b == b;
    }
  }

  lemma {:induction false} NonSpaceOfToken(t: string)
    requires forall i :: 0 <= i < |t| ==> !IsSpace(t[i])
    ensures NonSpace(t) == t
  {
    if t != [] {
      NonSpaceOfToken(t[1..]);
    }
  }

  /** Splitting loses only whitespace: the tokens, put back together, are the input's other characters. */
  lemma {:induction false} SplitKeepsText(s: string)
    ensures Concat(Split(s)) == NonSpace(s)
    decreases |s|
  {
    if s != [] {
      if IsSpace(s[0]) {
        SplitKeepsText(s[1..]);
      } else {
        var n := TokenLength(s);
        SplitKeepsText(s[n..]);
        assert s == s[..n] + s[n..];
        NonSpaceAppend(s[..n], s[n..]);
        NonSpaceOfToken(s[..n]);
        assert ([s[..n]] + Split(s[n..]))[1..] == Split(s[n..]);
      }
    }
  }

  /** `split()` finds no token exactly when `strip()` leaves nothing. */
  lemma {:induction false} SplitEmptyIffBlank(s: string)
    ensures Split(s) == [] <==> IsBlank(s)
    decreases |s|
  {
    if s != [] && IsSpace(s[0]) {
      SplitEmptyIffBlank(s[1..]);
      assert forall i :: 1 <= i < |s| ==> s[i] == s[1..][i - 1];
    }
  }

  /** The capitals whose lower-case form is modelled: ASCII, Latin-1 and basic Cyrillic, and Ґ. */
  predicate IsCapital(c: char) {
    || 'A' <= c <= 'Z'
    || ('\U{C0}' <= c <= '\U{DE}' && c != '\U{D7}')
    || '\U{400}' <= c <= '\U{42F}'
    || c == '\U{490}'
  }

  /** The token at the front of `t + rest` is all of `t` when `rest` starts with whitespace or is empty. */
  lemma {:induction false} TokenLengthOf(t: string, rest: string)
    requires forall i :: 0 <= i < |t| ==> !IsSpace(t[i])
    requires rest == [] || IsSpace(rest[0])
    ensures TokenLength(t + rest) == |t|
    decreases |t|
  {
    if t == [] {
      assert t + rest == rest;
    } else {
      assert (t + rest)[1..] == t[1..] + rest;
      TokenLengthOf(t[1..], rest);
    }
  }

  /**
   * Token boundaries: after leading whitespace `w`, a run of non-whitespace
   * `t` ended by whitespace or by the end of the input is one whole token,
   * and splitting carries on with the rest.
   */
  lemma {:induction false} SplitFirstToken(w: string, t: string, rest: string)
    requires IsBlank(w) && IsToken(t)
    requires rest == [] || IsSpace(rest[0])
    ensures Split(w + t + rest) == [t] + Split(rest)
    decreases |w|
  {
    if w == [] {
      var s := t + rest;
      assert w + t + rest == s;
      TokenLengthOf(t, rest);
      assert s[..|t|] == t;
      assert s[|t|..] == rest;
    } else {
      assert (w + t + rest)[1..] == w[1..] + t + rest;
      SplitFirstToken(w[1..], t, rest);
    }
  }

  /** `parse_input` lower-cases exactly the first whitespace-delimited word and passes the rest on as split. */
  lemma ParseInputFirstWord(w: string, t: string, rest: string)
    requires IsBlank(w) && IsToken(t)
    requires rest == [] || IsSpace(rest[0])
    ensures ParseInput(w + t + rest) == Parsed(Some(Lower(t)), Split(rest))
  {
    SplitFirstToken(w, t, rest);
    SplitEmptyIffBlank(w + t + rest);
    assert ([t] + Split(rest))[1..] == Split(rest);
  }

  /** Python's `str.lower()` on one character, for ASCII, Latin-1 and basic Cyrillic letters. */
  function LowerChar(c: char): (r: char)
    ensures !IsCapital(r)
    ensures IsCapital(c) <==> r != c
  {
    if 'A' <= c <= 'Z' then (c as int + 32) as char
    else if '\U{C0}' <= c <= '\U{DE}' && c != '\U{D7}' then (c as int + 32) as char
    else if '\U{400}' <= c <= '\U{40F}' then (c as int + 80) as char
    else if '\U{410}' <= c <= '\U{42F}' then (c as int + 32) as char
    else if c == '\U{490}' then '\U{491}'
    else c
  }

  /** `str.lower()`: no covered capital is left, every capital is replaced, and nothing else changes. */
  function Lower(s: string): (r: string)
    ensures |r| == |s|
    ensures forall i :: 0 <= i < |r| ==> !IsCapital(r[i])
    ensures forall i :: 0 <= i < |s| ==> (r[i] == s[i] <==> !IsCapital(s[i]))
    ensures forall i :: 0 <= i < |s| ==> r[i] == LowerChar(s[i])
  {
    seq(|s|, i requires 0 <= i < |s| => LowerChar(s[i]))
  }

  /** Lower-casing twice is lower-casing once, so a stored key is found again by its own spelling. */
  lemma LowerIdempotent(s: string)
    ensures Lower(Lower(s)) == Lower(s)
  {
  }

  /** What `parse_input` returns: the command, or `None` for a blank line, and the arguments. */
  datatype Parsed = Parsed(command: Option<string>, args: seq<string>)

  /** `parse_input`: the first token lower-cased, the remaining tokens as they are. */
  function ParseInput(input: string): (r: Parsed)
    ensures r.command.None? <==> IsBlank(input)
    ensures r.command.None? ==> r.args == []
    ensures r.command.Some? ==> r.command.value != [] && forall k :: 0 <= k < |r.args| ==> IsToken(r.args[k])
  {
    SplitEmptyIffBlank(input);
    if IsBlank(input) then Parsed(None, [])
    else
      var tokens := Split(input);
      Parsed(Some(Lower(tokens[0])), tokens[1..])
  }

  /**
   * Nothing but whitespace is dropped and nothing but the command's case is
   * changed: the command word as typed, followed by the arguments, spells
   * out the input's non-whitespace characters.
   */
  lemma ParseInputKeepsText(input: string)
    requires !IsBlank(input)
    ensures exists word :: Lower(word) == ParseInput(input).command.value
                           && Concat([word] + ParseInput(input).args) == NonSpace(input)
  {
    SplitEmptyIffBlank(input);
    SplitKeepsText(input);
    var tokens := Split(input);
    assert [tokens[0]] + tokens[1..] == tokens;
  }

  const ArityError := "Invalid input. Please provide both name and phone number."
  const NameMissing := "Please provide a contact name."
  const ContactNotFound := "Contact not found."
  const BirthdayNotFound := "Birthday not found for this contact."

  /**
   * `add_contact`: with two arguments and a valid phone, store a fresh record
   * under the lower-cased name holding just that phone, replacing any record
   * of that name; otherwise reply with the error and leave the book as it was.
   */
  method AddContact(args: seq<string>, book: AddressBook) returns (reply: string)
    requires book.Valid()
    modifies book
    ensures book.Valid()
    ensures |args| != 2 ==> reply == "Error: " + ArityError && unchanged(book)
    ensures |args| == 2 && !MatchesPhonePattern(args[1]) ==> reply == "Error: " + PhoneError && unchanged(book)
    ensures |args| == 2 && MatchesPhonePattern(args[1]) ==>
              var name := Lower(args[0]);
              && reply == "Contact added."
              && name in book.data && fresh(book.data[name])
              && book.data[name].phones == [Phone(args[1])] && book.data[name].birthday == None
              && book.data == old(book.data)[name := book.data[name]]
              && book.order == if name in old(book.data) then old(book.order) else old(book.order) + [name]
  {
    if |args| != 2 {
      return "Error: " + ArityError;
    }
    var name, phone := args[0], args[1];
    var record := new Record(Lower(name), None);
    var added := record.AddPhone(phone);
    if added.Fail? {
      return "Error: " + added.error;
    }
    book.AddRecord(record);
    reply := "Contact added.";
  }

  /**
   * `change_phone`: for a stored contact, drop its first phone (if any) and
   * append the new one; with an invalid new phone the first phone is already
   * gone when the error reply comes back. An unknown name changes nothing.
   */
  method ChangePhone(args: seq<string>, book: AddressBook) returns (reply: string)
    requires book.Valid()
    modifies (if |args| == 2 && Lower(args[0]) in book.data then {book.data[Lower(args[0])]} else {})`phones
    ensures |args| != 2 ==> reply == "Error: " + ArityError
    ensures |args| == 2 && Lower(args[0]) !in book.data ==> reply == ContactNotFound
    ensures |args| == 2 && Lower(args[0]) in book.data ==>
              var record := book.data[Lower(args[0])];
              && record.birthday == old(record.birthday)
              && record.phones == (if old(record.phones) == [] then [] else old(record.phones)[1..])
                                  + (if MatchesPhonePattern(args[1]) then [Phone(args[1])] else [])
              && reply == if MatchesPhonePattern(args[1]) then "Contact for " + args[0] + " updated."
                          else "Error: " + PhoneError
  {
    if |args| != 2 {
      return "Error: " + ArityError;
    }
    var name, newPhone := args[0], args[1];
    var found := book.Find(Lower(name));
    if found.None? {
      return ContactNotFound;
    }
    var record := found.value;
    var outcome;
    if record.phones != [] {
      RemoveFirstOfHead(record.phones);
      outcome := record.EditPhone(record.phones[0].value, newPhone);
    } else {
      // With no phones the code passes None as the old value; removing it finds nothing.
      outcome := record.AddPhone(newPhone);
    }
    if outcome.Fail? {
      return "Error: " + outcome.error;
    }
    reply := "Contact for " + name + " updated.";
  }

  /** `get_phone`: the first phone of the contact, or "Contact not found." when it is unknown or has no phone. */
  function GetPhone(args: seq<string>, book: AddressBook): (reply: string)
    reads book, book.data.Values
    requires book.Valid()
    ensures |args| == 0 ==> reply == "Error: " + NameMissing
    ensures |args| > 0 && reply != ContactNotFound ==>
              Lower(args[0]) in book.data && book.data[Lower(args[0])].phones != []
              && reply == book.data[Lower(args[0])].phones[0].value
    ensures |args| > 0 && Lower(args[0]) in book.data && book.data[Lower(args[0])].phones != [] ==>
              Phone(reply) == book.data[Lower(args[0])].phones[0]
  {
    if |args| < 1 then "Error: " + NameMissing
    else
      match book.Find(Lower(args[0]))
      case Some(record) => if record.phones != [] then record.phones[0].value else ContactNotFound
      case None => ContactNotFound
  }

  /** A reply of `show_birthday`: the stored date (printed as DD.MM.YYYY) or a message. */
  datatype BirthdayReply = BirthdayOn(date: Date) | Message(text: string)

  /** `show_birthday`: the contact's birthday, or a message when the contact or its birthday is missing. */
  function ShowBirthday(args: seq<string>, book: AddressBook): (reply: BirthdayReply)
    reads book, book.data.Values
    requires book.Valid()
    ensures |args| == 0 ==> reply == Message("Error: " + NameMissing)
    ensures |args| > 0 ==>
              (reply.BirthdayOn? <==> Lower(args[0]) in book.data && book.data[Lower(args[0])].birthday.Some?)
    ensures reply.BirthdayOn? ==> Some(reply.date) == book.data[Lower(args[0])].birthday
    ensures |args| > 0 && reply.Message? ==> reply.text == BirthdayNotFound
  {
    if |args| < 1 then Message("Error: " + NameMissing)
    else
      match book.Find(Lower(args[0]))
      case Some(record) =>
        if record.birthday.Some? then BirthdayOn(record.birthday.value) else Message(BirthdayNotFound)
      case None => Message(BirthdayNotFound)
  }

  /**
   * The shell session "add <name> <phone>" then "phone <query>" on a new
   * book: names are lower-cased on both sides, so any spelling of the name
   * that lower-cases the same way gets the phone back.
   */
  method AddThenGetPhone(name: string, phone: string, query: string) returns (reply: string)
    requires MatchesPhonePattern(phone) && Lower(query) == Lower(name)
    ensures reply == phone
  {
    var book := new AddressBook();
    var added := AddContact([name, phone], book);
    reply := GetPhone([query], book);
  }
}
